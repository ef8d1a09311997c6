// The daemon's requests and events as it performs them, on its tables and files (csa/csad/csa.c, csa_job.c,
// csa_daemon.c). What stands in a file is all that was written to it since it was opened.

module Daemon {
  import opened Basics
  import opened Eop
  import opened DaemonSpec

  class CsaDaemon {
    const dmd: array<Stat>                // acct_dmd
    const rcd: array<Stat>                // acct_rcd
    const buffer: EntryBuffer             // acctent
    var sys: Option<Log>                  // csa_acctvp
    var closed: seq<Log>
    var jobs: map<nat, Job>               // job_table

    ghost predicate Valid()
      reads this
    {
      && dmd.Length == MAXKDS && rcd.Length == NUM_RCDS && dmd != rcd && buffer.Distinct()
    }

    ghost function View(): State
      reads this, dmd, rcd
      requires Valid()
      ensures ValidState(View())
    {
      State(Tables(dmd[..], rcd[..]), sys, closed, jobs)
    }

    constructor ()
      ensures Valid() && View() == INIT
      ensures fresh(dmd) && fresh(rcd) && fresh(buffer.csa1) && fresh(buffer.csa2) && fresh(buffer.mem)
      ensures fresh(buffer.io) && fresh(buffer.delay)
    {
      dmd := new Stat[MAXKDS](_ => OFF);
      rcd := new Stat[NUM_RCDS](_ => OFF);
      buffer := new EntryBuffer();
      sys, closed, jobs := None, [], map[];
    }

    // ---- Configuration records ----

    // The masks of csa_config_make
    method ConfigMake(event: ConfigEvent) returns (r: Rec)
      requires Valid()
      ensures r == ConfigRec(event, View().tab)
    {
      var kd, rc, bit := 0, 0, 1;
      for ind := 0 to MAXKDS
        invariant bit == Power(ind) && kd == Mask(dmd[..ind])
      {
        if dmd[ind].on {
          kd := kd + bit;
        }
        bit := 2 * bit;
        assert dmd[..ind + 1][..ind] == dmd[..ind];
      }
      bit := 1;
      for ind := 0 to NUM_RCDS
        invariant bit == Power(ind) && rc == Mask(rcd[..ind])
      {
        if rcd[ind].on {
          rc := rc + bit;
        }
        bit := 2 * bit;
        assert rcd[..ind + 1][..ind] == rcd[..ind];
      }
      assert dmd[..MAXKDS] == dmd[..] && rcd[..NUM_RCDS] == rcd[..];
      r := Config(event, kd, rc);
    }

    method WriteSys(r: Rec)
      requires Valid()
      modifies this`sys
      ensures sys == Append(old(sys), r)
    {
      if sys.Some? {
        sys := Some(sys.value + [r]);
      }
    }

    method WriteJob(jid: nat, r: Rec)
      requires Valid() && jid in jobs
      modifies this`jobs
      ensures jobs == old(jobs)[jid := old(jobs)[jid].(file := Append(old(jobs)[jid].file, r))]
    {
      if jobs[jid].file.Some? {
        jobs := jobs[jid := jobs[jid].(file := Some(jobs[jid].file.value + [r]))];
      }
    }

    // csa_config_write without a job file
    method ConfigWrite(event: ConfigEvent)
      requires Valid()
      modifies this`sys
      ensures sys == Append(old(sys), ConfigRec(event, old(View()).tab))
    {
      var r := ConfigMake(event);
      WriteSys(r);
    }

    method Close()
      requires Valid()
      modifies this`sys, this`closed
      ensures sys == None && closed == if old(sys).Some? then old(closed) + [old(sys).value] else old(closed)
    {
      if sys.Some? {
        closed := closed + [sys.value];
      }
      sys := None;
    }

    // ---- Requests ----

    method SetStat(id: int, stat: Stat)
      requires Valid() && MethodId(id)
      modifies dmd, rcd
      ensures View() == old(View()).(tab := Set(old(View()).tab, id, stat))
    {
      if id < RCDS {
        dmd[id] := stat;
      } else {
        rcd[id - RCDS] := stat;
      }
    }

    method DoStart(req: Request) returns (error: Errno)
      requires Valid() && ValidRequest(req)
      modifies this`sys, this`closed, dmd, rcd
      ensures View() == Step(old(View()), Start(req)) && error == StartStep(old(View()), req).1
    {
      hide Set, ConfigRec;
      var num := if req.num == 0 then 1 else req.num;
      if num < 0 || num > NUM_KDRCDS {
        return EINVAL;
      }
      match req.path {
        case Irregular => return EACCES;
        case Regular =>
          if sys.Some? {
            ConfigWrite(FileChange);
            Close();
          }
          sys := Some([]);
        case NoPath =>
          if sys == None {
            return EINVAL;
          }
      }
      ghost var before := View();
      ghost var stats := Entries(req);
      for ind := 0 to num
        invariant View() == before.(tab := TurnOn(before.tab, stats[..ind]))
      {
        SetStat(req.stats[ind].id, Stat(true, req.stats[ind].param));
        assert stats[..ind + 1][..ind] == stats[..ind];
      }
      assert stats[..num] == stats;
      assert [] + [ConfigRec(TurnedOn, View().tab)] == [ConfigRec(TurnedOn, View().tab)];
      ConfigWrite(TurnedOn);
      error := Success;
    }

    method DoStop(req: Request) returns (error: Errno)
      requires Valid() && ValidRequest(req)
      modifies this`sys, this`closed, dmd, rcd
      ensures View() == Step(old(View()), Stop(req)) && error == StopStep(old(View()), req).1
    {
      hide Set, ConfigRec;
      var num := if req.num == 0 then 1 else req.num;
      if num <= 0 || num > NUM_KDRCDS {
        return EINVAL;
      }
      ghost var before := View();
      ghost var stats := Entries(req);
      for ind := 0 to num
        invariant View() == before.(tab := TurnOff(before.tab, stats[..ind]))
      {
        SetStat(req.stats[ind].id, OFF);
        assert stats[..ind + 1][..ind] == stats[..ind];
      }
      assert stats[..num] == stats;
      var daemon := false;
      for ind := 0 to MAXKDS
        invariant daemon == exists k :: 0 <= k < ind && dmd[k].on
      {
        if dmd[ind].on {
          daemon := true;
        }
      }
      assert daemon == AnyOn(dmd[..]);
      ConfigWrite(TurnedOff);
      if !daemon && sys.Some? {
        Close();
      }
      error := Success;
    }

    method DoHalt()
      requires Valid()
      modifies this`sys, this`closed, dmd, rcd
      ensures View() == Step(old(View()), Halt)
    {
      hide ConfigRec;
      for ind := 0 to MAXKDS
        invariant sys == old(sys) && closed == old(closed)
        invariant forall k :: 0 <= k < ind ==> dmd[k] == OFF
      {
        dmd[ind] := OFF;
      }
      for ind := 0 to NUM_RCDS
        invariant sys == old(sys) && closed == old(closed)
        invariant forall k :: 0 <= k < MAXKDS ==> dmd[k] == OFF
        invariant forall k :: 0 <= k < ind ==> rcd[k] == OFF
      {
        rcd[ind] := OFF;
      }
      assert dmd[..] == ALL_OFF.dmd && rcd[..] == ALL_OFF.rcd;
      assert View() == old(View()).(tab := ALL_OFF);
      if sys.Some? {
        ConfigWrite(TurnedOff);
        Close();
      }
    }

    // AC_JASTART and AC_JASTOP
    method DoJa(start: bool, jid: nat, path: Path) returns (error: Errno)
      requires Valid()
      modifies this`sys, this`jobs
      ensures View() == Step(old(View()), if start then JaStart(jid, path) else JaStop(jid, path))
      ensures error == if start then JaStartStep(old(View()), jid, path).1 else JaStopStep(old(View()), jid, path).1
    {
      hide ConfigRec;
      if path == Irregular {
        return EACCES;
      }
      if path == NoPath && start {
        return EINVAL;
      }
      if jid == 0 || jid !in jobs {
        return ENODATA;
      }
      var file: Option<Log> := if start then Some([]) else None;
      jobs := jobs[jid := jobs[jid].(file := file)];
      if start {
        var r := ConfigMake(TurnedOn);
        WriteSys(r);
        WriteJob(jid, r);
        assert [] + [r] == [r];
        assert jobs == old(jobs)[jid := old(jobs)[jid].(file := Some([r]))];
      }
      error := Success;
    }

    method DoWrAcct(id: int, jid: nat, buf: seq<byte>) returns (error: Errno)
      requires Valid()
      modifies this`sys, this`jobs
      ensures View() == Step(old(View()), WrAcct(id, jid, buf)) && error == WrAcctStep(old(View()), id, jid, buf).1
    {
      if id < 0 || id >= MAXKDS || |buf| == 0 || |buf| > MAX_WRACCT {
        return EINVAL;
      }
      if dmd[id].on && sys.Some? {
        WriteSys(Data(buf));
      }
      if jid !in jobs {
        return ENODATA;
      }
      if jobs[jid].file.Some? {
        WriteJob(jid, Data(buf));
      }
      error := Success;
    }

    // ---- Events ----

    // The part of csa_acct_eop that deals with the system file: thresholds, and the buffer edited down to what is enabled
    method EopToSystem(t: Task, ja: bool, links: Links)
      requires Valid() && ValidTask(t) && buffer.Built(t, links) && links == Collected(View().tab, ja)
      modifies this`sys, buffer.csa1, buffer.csa2, buffer.mem, buffer.io, buffer.delay
      ensures sys == if dmd[KERN_CSA].on && OverThresholds(old(View()).tab, ja, t)
                     then Append(old(sys), Data(EopBytes(t, Enabled(old(View()).tab)))) else old(sys)
    {
      hide EopBytes, ValidTask;
      var io, mem, delay := rcd[RCD_IO - RCDS].on, rcd[RCD_MEM - RCDS].on, rcd[RCD_DELAY - RCDS].on;
      if rcd[THD_MEM - RCDS].on && (ja || mem) && Unsigned(t.virtHimem) < Unsigned(rcd[THD_MEM - RCDS].param) {
        return;
      }
      var stime := if t.utime == 0 && t.stime == 0 then HALF_TICK else t.stime;
      if rcd[THD_TIME - RCDS].on && Unsigned(t.utime + stime) < Unsigned(rcd[THD_TIME - RCDS].param) {
        return;
      }
      if sys.Some? && dmd[KERN_CSA].on {
        var bytes;
        if io && mem && delay {
          bytes := buffer.Copy(t, links);
        } else {
          bytes := buffer.ModifyBuf(t, links, Links(mem, io, delay));
        }
        WriteSys(Data(bytes));
      }
    }

    method RaiseHighWater(jid: nat, t: Task)
      requires Valid() && jid in jobs
      modifies this`jobs
      ensures var job := old(jobs)[jid];
              jobs == old(jobs)[jid := job.(core := Max(job.core, t.coreHimem), virt := Max(job.virt, t.virtHimem))]
    {
      if jobs[jid].core < t.coreHimem {
        jobs := jobs[jid := jobs[jid].(core := t.coreHimem)];
      }
      if jobs[jid].virt < t.virtHimem {
        jobs := jobs[jid := jobs[jid].(virt := t.virtHimem)];
      }
    }

    // csa_acct_eop: one buffer, written whole to the job's file and then, perhaps edited, to the system file
    method AcctEop(jid: nat, t: Task)
      requires Valid() && ValidTask(t)
      modifies this`sys, this`jobs, buffer.csa1, buffer.csa2, buffer.mem, buffer.io, buffer.delay
      ensures View() == Step(old(View()), Exit(jid, t))
      ensures jid != 0 && jid in old(jobs) && old(jobs)[jid].file.Some? ==>
                jid in jobs && jobs[jid].file == Some(old(jobs)[jid].file.value + [Data(EopBytes(t, ALL_LINKS))])
    {
      hide EopBytes, ValidTask, OverThresholds, Enabled;
      if jid == 0 || jid !in jobs {
        return;
      }
      var ja := jobs[jid].file.Some?;
      if !ja && !dmd[KERN_CSA].on {
        return;
      }
      var links := Links(ja || rcd[RCD_MEM - RCDS].on, ja || rcd[RCD_IO - RCDS].on, ja || rcd[RCD_DELAY - RCDS].on);
      buffer.Build(t, links);
      if links.mem {
        RaiseHighWater(jid, t);
      }
      if ja {
        var bytes := buffer.Copy(t, links);
        WriteJob(jid, Data(bytes));
      }
      ghost var log := Append(old(jobs)[jid].file, Data(EopBytes(t, links)));
      assert jobs == old(jobs)[jid := Job(if links.mem then Max(old(jobs)[jid].core, t.coreHimem) else old(jobs)[jid].core,
                                          if links.mem then Max(old(jobs)[jid].virt, t.virtHimem) else old(jobs)[jid].virt,
                                          log)];
      EopToSystem(t, ja, links);
    }

    // JOB_EVENT_START: csa_newjob and csa_jstart
    method StartJob(jid: nat)
      requires Valid()
      modifies this`sys, this`jobs
      ensures View() == Step(old(View()), JobStart(jid))
    {
      if jid in jobs {
        return;
      }
      jobs := jobs[jid := Job(0, 0, None)];
      if sys.Some? {
        WriteSys(StartOfJob(jid));
      }
    }

    // JOB_EVENT_END: csa_jexit and csa_freejob
    method EndJob(jid: nat)
      requires Valid()
      modifies this`sys, this`jobs
      ensures View() == Step(old(View()), JobEnd(jid))
    {
      if jid !in jobs {
        return;
      }
      if sys.Some? {
        WriteSys(EndOfJob(jid, jobs[jid].core, jobs[jid].virt));
      }
      jobs := jobs - {jid};
    }
  }
}
