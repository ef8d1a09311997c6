// The record header shared by every pacct record, and the constant tables that describe record types.

module AcctHeader {
  import opened Basics

  const HDR_SIZE: nat := 8

  // ACCT_MAGIC_LITTLE, octal 030512
  const ACCT_MAGIC: nat := 0x314A

  // Header flag: another record of the same entry follows
  const AMORE: nat := 0x20

  const KERNEL_CSA: nat := 1
  const KERNEL_MEM: nat := 2
  const KERNEL_IO: nat := 4
  const KERNEL_DELAY: nat := 8
  const KERNEL_SOJ: nat := 10
  const KERNEL_EOJ: nat := 12
  const KERNEL_CFG: nat := 16
  const KERNEL_SITE0: nat := 64
  const KERNEL_SITE1: nat := 65
  const DAEMON_WKMG: nat := 82
  const DAEMON_SITE0: nat := 128
  const DAEMON_SITE1: nat := 129
  const JOB_HEADER: nat := 144
  const CACCT: nat := 146
  const CMS: nat := 148

  // The oldest revision the readers convert, octal 05000
  const OTFC_BASE_REV: nat := 2560

  const SIZE_CSA: nat := 136
  const SIZE_MEM: nat := 112
  const SIZE_IO: nat := 56
  const SIZE_DELAY: nat := 72
  const SIZE_SOJ: nat := 40
  const SIZE_EOJ: nat := 120
  const SIZE_CFG: nat := 216
  const SIZE_WKMG: nat := 208
  const SIZE_JOB: nat := 88

  // Size of the buffer that holds one entry
  const ACCTENTSIZ: nat := SIZE_CSA + SIZE_MEM + SIZE_IO + SIZE_DELAY

  datatype Achead = Achead(magic: int, revision: int, kind: int, flag: int, size: int)

  // A header whose fields fit their C integer widths.
  ghost predicate Encodable(h: Achead) {
    && 0 <= h.magic < 0x1_0000 && 0 <= h.revision < 0x1_0000
    && 0 <= h.kind < 256 && 0 <= h.flag < 256 && 0 <= h.size < 0x1_0000
  }

  function U16(lo: byte, hi: byte): int {
    lo + 256 * hi
  }

  // n in k bytes, little-endian, and back
  function Little(n: nat, k: nat): (b: seq<byte>)
    ensures |b| == k
  {
    if k == 0 then [] else [n % 256] + Little(n / 256, k - 1)
  }

  function FromLittle(b: seq<byte>): nat {
    if b == [] then 0 else b[0] + 256 * FromLittle(b[1..])
  }

  // struct achead, little-endian
  function Decode(b: seq<byte>): Achead
    requires |b| >= HDR_SIZE
  {
    Achead(U16(b[0], b[1]), U16(b[2], b[3]), b[4], b[5], U16(b[6], b[7]))
  }

  function Encode(h: Achead): (b: seq<byte>)
    requires Encodable(h)
    ensures |b| == HDR_SIZE
    ensures Decode(b) == h
  {
    [h.magic % 256, h.magic / 256, h.revision % 256, h.revision / 256, h.kind, h.flag, h.size % 256, h.size / 256]
  }

  predicate More(flag: int) {
    (flag / AMORE) % 2 == 1
  }

  // flag |= AMORE, or flag &= ~AMORE
  function WithMore(flag: byte, more: bool): (r: byte)
    ensures More(r) == more
    ensures More(flag) == more ==> r == flag
  {
    if More(flag) == more then flag else if more then flag + AMORE else flag - AMORE
  }

  // rev_tab: the current revision of each record type; -1 where there is none
  function RevTab(kind: int): int {
    if kind == KERNEL_IO || kind == KERNEL_DELAY then 3584
    else if kind == JOB_HEADER then 4096
    else if StructSize(kind) > 0 || kind == CACCT || kind == CMS then 3072
    else -1
  }

  // sizeof the struct of a pacct record type; 0 for types without one
  function StructSize(kind: int): nat {
    if kind == KERNEL_CSA then SIZE_CSA
    else if kind == KERNEL_MEM then SIZE_MEM
    else if kind == KERNEL_IO then SIZE_IO
    else if kind == KERNEL_DELAY then SIZE_DELAY
    else if kind == KERNEL_SOJ then SIZE_SOJ
    else if kind == KERNEL_EOJ then SIZE_EOJ
    else if kind == KERNEL_CFG then SIZE_CFG
    else if kind == DAEMON_WKMG then SIZE_WKMG
    else if kind == JOB_HEADER then SIZE_JOB
    else 0
  }

  predicate SiteType(kind: int) {
    kind == KERNEL_SITE0 || kind == KERNEL_SITE1 || kind == DAEMON_SITE0 || kind == DAEMON_SITE1
  }

  // validtype: types a record reader lets through
  predicate ValidType(kind: int) {
    StructSize(kind) > 0 || kind == CACCT || kind == CMS || SiteType(kind)
  }

  // Types checktype accepts in a pacct file
  predicate PacctType(kind: int) {
    StructSize(kind) > 0 || SiteType(kind)
  }
}
