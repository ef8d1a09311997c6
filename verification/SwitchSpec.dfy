// csaswitch (csa/cmd/csaswitch.c, csa/lib/csa_api.c): which request a command sends the daemon, and what every sequence
// of commands keeps of the daemon's tables.

module SwitchSpec {
  import opened Basics
  import opened DaemonSpec
  import opened DaemonProofs
  import GetOptLst

  // ---- The name list ----

  const NUM_NAMES: nat := 14
  const NAMES: seq<string> := ["csa", "job", "wkmg", "site1", "site2", "", "mem", "io", "delay", "memt", "time",
                               "rsite1", "rsite2", ""]

  function Lower(c: char): char {
    if 'A' <= c <= 'Z' then c - 'A' + 'a' else c
  }

  predicate SameName(a: string, b: string) {
    |a| == |b| && forall i :: 0 <= i < |a| ==> Lower(a[i]) == Lower(b[i])
  }

  // Method k goes by this name; the gap between the two groups of methods has none, the end mark has.
  predicate IsNamed(k: int, name: string) {
    0 <= k < NUM_NAMES && k != MAXKDS && SameName(NAMES[k], name)
  }

  // check_name, from index i on: the first method of this name, or -1 when there is none
  function CheckName(name: string, i: nat): (r: int)
    requires i <= NUM_NAMES
    ensures r == -1 <==> forall k :: i <= k < NUM_NAMES ==> !IsNamed(k, name)
    ensures r != -1 ==> i <= r < NUM_NAMES && IsNamed(r, name) && forall k :: i <= k < r ==> !IsNamed(k, name)
    decreases NUM_NAMES - i
  {
    if i == NUM_NAMES then -1
    else if IsNamed(i, name) then i
    else CheckName(name, i + 1)
  }

  datatype Asked = NotSet | AskOn | AskOff

  datatype Entry = Entry(asked: Asked, param: int)

  type NameList = l: seq<Entry> | |l| == NUM_NAMES witness seq(NUM_NAMES, i => Entry(NotSet, 0))

  function Unset(): (r: NameList)
    ensures forall i :: 0 <= i < NUM_NAMES ==> r[i] == Entry(NotSet, 0)
  {
    seq(NUM_NAMES, i => Entry(NotSet, 0))
  }

  // parse_name_list: the indices of the names; None when one is unknown
  function Indices(names: seq<string>): (r: Option<seq<int>>)
    ensures r.Some? ==> forall id :: id in r.value ==> 0 <= id < NUM_NAMES && id != MAXKDS
  {
    if names == [] then Some([])
    else
      var id := CheckName(names[|names| - 1], 0);
      var rest := Indices(names[..|names| - 1]);
      if id < 0 || rest == None then None else Some(rest.value + [id])
  }

  function Ask(list: NameList, ids: seq<int>, asked: Asked): NameList {
    seq(NUM_NAMES, i requires 0 <= i < NUM_NAMES => if i in ids then list[i].(asked := asked) else list[i])
  }

  // An entry of csa.conf: absent, not on, or on with an optional threshold
  datatype ConfigEntry = Missing | NotOn | IsOn(threshold: Option<int>)

  type Conf = c: seq<ConfigEntry> | |c| == MAXRCDS witness seq(MAXRCDS, i => Missing)

  predicate IsThreshold(id: int) {
    id == THD_MEM || id == THD_TIME
  }

  // STAT_FLAG: the methods csaswitch looks up in csa.conf
  predicate Active(id: int) {
    id == KERN_CSA || id == 2 || RCD_MEM <= id <= THD_TIME
  }

  predicate Takes(config: Conf, id: int) {
    && 0 <= id < MAXRCDS && Active(id) && config[id].IsOn?
    && (IsThreshold(id) ==> config[id].threshold.Some? && config[id].threshold.value >= 0)
  }

  // get_config
  function Configured(list: NameList, config: Conf): NameList {
    seq(NUM_NAMES, i requires 0 <= i < NUM_NAMES =>
      if !Takes(config, i) then list[i]
      else Entry(AskOn, if IsThreshold(i) then config[i].threshold.value else list[i].param))
  }

  predicate AnyTaken(config: Conf) {
    exists i :: 0 <= i < MAXRCDS && Takes(config, i)
  }

  predicate Linked(id: int) {
    RCD_MEM <= id <= THD_TIME
  }

  // A linked record or a threshold is asked for.
  predicate AsksLinked(list: NameList) {
    exists id :: RCD_MEM <= id <= THD_TIME && Linked(id) && list[id].asked == AskOn
  }

  // No linked records or thresholds without the base record
  function WithBase(list: NameList, csaOn: bool): NameList {
    if AsksLinked(list) && !csaOn then list[KERN_CSA := list[KERN_CSA].(asked := AskOn)] else list
  }

  function Override(list: NameList, mem: int, time: int): NameList {
    var l := if mem > 0 then list[THD_MEM := list[THD_MEM].(param := mem)] else list;
    if time > 0 then l[THD_TIME := l[THD_TIME].(param := time)] else l
  }

  // do_stop: with the base record go the linked records and the thresholds
  function WithLinked(list: NameList): NameList {
    if list[KERN_CSA].asked != AskOff then list
    else seq(NUM_NAMES, i requires 0 <= i < NUM_NAMES => if Linked(i) then list[i].(asked := AskOff) else list[i])
  }

  // ---- Requests ----

  // csa_start sends time thresholds in microseconds.
  function Param(id: int, param: int): int {
    if id == THD_TIME then param * 1000000 else param
  }

  // The methods below index k asked to go on, with their parameters
  function ToStart(list: NameList, k: nat): (r: seq<Method>)
    requires k <= MAXRCDS
    ensures |r| <= if k <= MAXKDS then k else k - 1
    ensures forall m :: m in r ==> MethodId(m.id)
  {
    if k == 0 then []
    else ToStart(list, k - 1)
         + if k - 1 != MAXKDS && list[k - 1].asked == AskOn then [Method(k - 1, Param(k - 1, list[k - 1].param))] else []
  }

  function ToStop(list: NameList, k: nat): (r: seq<Method>)
    requires k <= MAXRCDS
    ensures |r| <= if k <= MAXKDS then k else k - 1
    ensures forall m :: m in r ==> MethodId(m.id)
  {
    if k == 0 then []
    else ToStop(list, k - 1) + if k - 1 != MAXKDS && list[k - 1].asked == AskOff then [Method(k - 1, 0)] else []
  }

  function Cleared(n: nat): (r: seq<Method>)
    ensures |r| == n && forall i :: 0 <= i < n ==> r[i] == Method(KERN_CSA, 0)
  {
    seq(n, i => Method(KERN_CSA, 0))
  }

  // The message: a cleared array filled from the front
  function Message(path: Path, ms: seq<Method>): (r: Request)
    requires |ms| <= NUM_KDRCDS && forall m :: m in ms ==> MethodId(m.id)
    ensures ValidRequest(r) && r.path == path
    ensures 0 <= r.num <= NUM_KDRCDS && Entries(r) == if ms == [] then [Method(KERN_CSA, 0)] else ms
  {
    Request(|ms|, path, ms + Cleared(NUM_KDRCDS - |ms|))
  }

  // ---- Commands ----

  // Thresholds given on the command line; the outcome of checking the file and of the daemon opening it
  datatype Command =
    | On(names: Option<string>, mem: Option<int>, time: Option<int>, pathGiven: bool, config: Conf, fileOk: bool, file: Path)
    | Switch(names: Option<string>, mem: Option<int>, time: Option<int>, config: Conf, fileOk: bool, file: Path)
    | Off(list: string)
    | HaltAll

  // The name list after the command line was read; None when it is refused
  function AskedFor(names: Option<string>, asked: Asked): Option<NameList> {
    if names == None then Some(Unset())
    else match Indices(GetOptLst.Parse(names.value)) case None => None case Some(ids) => Some(Ask(Unset(), ids, asked))
  }

  // A threshold option: the value it brings, None when the command is refused
  function Threshold(list: NameList, id: int, names: Option<string>, given: Option<int>): Option<int>
    requires IsThreshold(id)
  {
    if list[id].asked == AskOn && given == None then None
    else if given == None || !(list[id].asked == AskOn || names == None) then Some(0)
    else if given.value < 0 then None else Some(given.value)
  }

  lemma AnyOnLater(stats: seq<Stat>)
    requires AnyOn(stats) && !stats[0].on
    ensures AnyOn(stats[1..])
  {
    if k :| 0 <= k < |stats| && stats[k].on {
      assert stats[1..][k - 1].on;
    }
  }

  function FirstOn(stats: seq<Stat>): (i: nat)
    requires AnyOn(stats)
    ensures i < |stats| && stats[i].on && forall k :: 0 <= k < i ==> !stats[k].on
  {
    if stats[0].on then 0
    else
      AnyOnLater(stats);
      1 + FirstOn(stats[1..])
  }

  // do_start and do_switch: the methods to ask for, from the command line or from csa.conf
  function StartList(list: NameList, useConfig: bool, config: Conf, csaOn: bool): Option<NameList> {
    if !useConfig then Some(WithBase(list, csaOn))
    else if !AnyTaken(config) then None
    else Some(WithBase(Configured(list, config), csaOn))
  }

  // The request a command sends the daemon, if it comes to that
  function Sends(s: State, c: Command): (r: Option<Event>)
    requires ValidState(s)
    ensures r.Some? ==> ValidEvent(r.value)
  {
    match c
    case HaltAll => Some(Halt)
    case Off(names) =>
      (match AskedFor(Some(names), AskOff)
       case None => None
       case Some(list) => Some(Stop(Message(NoPath, ToStop(WithLinked(list), MAXRCDS)))))
    case On(names, mem, time, pathGiven, config, fileOk, file) =>
      (match AskedFor(names, AskOn)
       case None => None
       case Some(asked) =>
         var m, t := Threshold(asked, THD_MEM, names, mem), Threshold(asked, THD_TIME, names, time);
         var list := StartList(asked, names == None, config, s.tab.dmd[KERN_CSA].on);
         if m == None || t == None || list == None then None
         else
           var ms := ToStart(Override(list.value, m.value, t.value), MAXRCDS);
           if !pathGiven && AnyOn(s.tab.dmd) then Some(Start(Message(NoPath, ms)))
           else if !fileOk then None
           else Some(Start(Message(file, ms))))
    case Switch(names, mem, time, config, fileOk, file) =>
      (match AskedFor(names, AskOn)
       case None => None
       case Some(asked) =>
         if Threshold(asked, THD_MEM, names, mem) == None || Threshold(asked, THD_TIME, names, time) == None then None
         else if AnyOn(s.tab.dmd) then
           var i := FirstOn(s.tab.dmd);
           if fileOk then Some(Start(Message(file, [Method(i, Param(i, s.tab.dmd[i].param))]))) else None
         else
           match StartList(asked, true, config, false)
           case None => None
           case Some(list) => if fileOk then Some(Start(Message(file, ToStart(list, MAXRCDS)))) else None)
  }

  function Obey(s: State, c: Command): (r: State)
    requires ValidState(s)
    ensures ValidState(r)
  {
    match Sends(s, c) case None => s case Some(e) => Step(s, e)
  }

  // ---- Linked records need the base record ----

  ghost predicate LinkedOn(tab: Tables)
    requires ValidTables(tab)
  {
    exists id :: Linked(id) && Get(tab, id).on
  }

  ghost predicate Based(tab: Tables)
    requires ValidTables(tab)
  {
    LinkedOn(tab) ==> Get(tab, KERN_CSA).on
  }

  lemma {:induction false} ToStartNames(list: NameList, k: nat, id: int)
    requires k <= MAXRCDS
    ensures Named(ToStart(list, k), id) <==> 0 <= id < k && id != MAXKDS && list[id].asked == AskOn
    decreases k
  {
    if k > 0 {
      ToStartNames(list, k - 1, id);
      var before, all := ToStart(list, k - 1), ToStart(list, k);
      if Named(before, id) {
        if j :| 0 <= j < |before| && before[j].id == id { assert all[j].id == id; }
      }
      if id == k - 1 && id != MAXKDS && list[id].asked == AskOn {
        assert all[|before|].id == id;
      }
    }
  }

  lemma {:induction false} ToStopNames(list: NameList, k: nat, id: int)
    requires k <= MAXRCDS
    ensures Named(ToStop(list, k), id) <==> 0 <= id < k && id != MAXKDS && list[id].asked == AskOff
    decreases k
  {
    if k > 0 {
      ToStopNames(list, k - 1, id);
      var before, all := ToStop(list, k - 1), ToStop(list, k);
      if Named(before, id) {
        if j :| 0 <= j < |before| && before[j].id == id { assert all[j].id == id; }
      }
      if id == k - 1 && id != MAXKDS && list[id].asked == AskOff {
        assert all[|before|].id == id;
      }
    }
  }

  lemma Single(m: Method, id: int)
    ensures Named([m], id) <==> m.id == id
  {
    assert [m][0] == m;
  }

  // Asking the daemon to start a list that has the base record whenever it has a linked one
  lemma StartKeepsBased(s: State, path: Path, list: NameList)
    requires ValidState(s) && Based(s.tab)
    requires AsksLinked(list) && list[KERN_CSA].asked != AskOn ==> Get(s.tab, KERN_CSA).on
    ensures Based(StartStep(s, Message(path, ToStart(list, MAXRCDS))).0.tab)
  {
    hide ToStart, TurnOn, Set, Get, Mask, Message, Named;
    var ms := ToStart(list, MAXRCDS);
    var req := Message(path, ms);
    var entries := Entries(req);
    var tab := TurnOn(s.tab, entries);
    forall id | MethodId(id)
      ensures Get(tab, id).on == (Get(s.tab, id).on || Named(entries, id))
      ensures ms != [] ==> (Named(entries, id) <==> list[id].asked == AskOn)
      ensures ms == [] ==> (Named(entries, id) <==> id == KERN_CSA)
    {
      TurnOnTurnsOn(s.tab, entries, id);
      ToStartNames(list, MAXRCDS, id);
      Single(Method(KERN_CSA, 0), id);
    }
    assert MethodId(KERN_CSA);
    if LinkedOn(tab) {
      if id :| Linked(id) && Get(tab, id).on {
        assert MethodId(id);
      }
    }
  }

  lemma SwitchRequest(s: State, i: nat, path: Path)
    requires ValidState(s) && i < MAXKDS && s.tab.dmd[i].on
    ensures StartStep(s, Message(path, [Method(i, Param(i, s.tab.dmd[i].param))])).0.tab == s.tab
  {
    hide Mask;
    var stats := [Method(i, s.tab.dmd[i].param)];
    assert stats[..0] == [];
    assert TurnOn(s.tab, stats) == Set(TurnOn(s.tab, []), i, s.tab.dmd[i]);
    assert s.tab.dmd[i := s.tab.dmd[i]] == s.tab.dmd;
  }

  // Switching files while a kernel or daemon method is on changes no state and no parameter of any method, however the
  // switch ends; when it succeeds, the old file ends in FILE and the new one starts with ON.
  lemma SwitchKeepsTables(s: State, c: Command)
    requires ValidState(s) && c.Switch? && AnyOn(s.tab.dmd)
    ensures Obey(s, c).tab == s.tab
    ensures Sends(s, c).Some? && c.file == Regular && s.sys.Some? ==>
              && Obey(s, c).sys == Some([ConfigRec(TurnedOn, s.tab)])
              && Obey(s, c).closed == s.closed + [s.sys.value + [ConfigRec(FileChange, s.tab)]]
  {
    hide Mask, TurnOn, ToStart, Message, Indices, Set;
    SwitchRequest(s, FirstOn(s.tab.dmd), c.file);
  }

  lemma WithBaseHasBase(list: NameList, csaOn: bool)
    ensures AsksLinked(WithBase(list, csaOn)) && !csaOn ==> WithBase(list, csaOn)[KERN_CSA].asked == AskOn
  {
    var l := WithBase(list, csaOn);
    if AsksLinked(l) {
      if id :| Linked(id) && l[id].asked == AskOn {
        assert list[id].asked == AskOn;
      }
    }
  }

  lemma OverrideAsks(list: NameList, mem: int, time: int)
    ensures forall i :: 0 <= i < NUM_NAMES ==> Override(list, mem, time)[i].asked == list[i].asked
  {
  }

  lemma OnKeepsBased(s: State, c: Command)
    requires ValidState(s) && Based(s.tab) && c.On?
    ensures Based(Obey(s, c).tab)
  {
    hide StartStep, ToStart, Message, Based, Indices, Override, AsksLinked, WithBase, Configured, Set, AnyTaken;
    var asked := AskedFor(c.names, AskOn);
    if Sends(s, c).Some? {
      var m, t := Threshold(asked.value, THD_MEM, c.names, c.mem), Threshold(asked.value, THD_TIME, c.names, c.time);
      var csaOn := s.tab.dmd[KERN_CSA].on;
      var list := StartList(asked.value, c.names == None, c.config, csaOn).value;
      WithBaseHasBase(asked.value, csaOn);
      WithBaseHasBase(Configured(asked.value, c.config), csaOn);
      OverrideAsks(list, m.value, t.value);
      SameAsks(list, Override(list, m.value, t.value));
      StartKeepsBased(s, NoPath, Override(list, m.value, t.value));
      StartKeepsBased(s, c.file, Override(list, m.value, t.value));
    }
  }

  lemma SameAsks(a: NameList, b: NameList)
    requires forall i :: 0 <= i < NUM_NAMES ==> a[i].asked == b[i].asked
    ensures AsksLinked(a) == AsksLinked(b)
  {
  }

  lemma SwitchKeepsBased(s: State, c: Command)
    requires ValidState(s) && Based(s.tab) && c.Switch?
    ensures Based(Obey(s, c).tab)
  {
    hide StartStep, ToStart, Message, Based, Indices, Override, AsksLinked, WithBase, Configured, Set, AnyTaken;
    if AnyOn(s.tab.dmd) {
      SwitchKeepsTables(s, c);
    } else if Sends(s, c).Some? {
      var asked := AskedFor(c.names, AskOn);
      var list := StartList(asked.value, true, c.config, false).value;
      WithBaseHasBase(Configured(asked.value, c.config), false);
      StartKeepsBased(s, c.file, list);
    }
  }

  lemma HaltKeepsBased(s: State)
    requires ValidState(s)
    ensures Based(Step(s, Halt).tab)
  {
    hide Mask, Get;
    forall id | Linked(id)
      ensures !Get(ALL_OFF, id).on
    {
      AllOff(id);
    }
  }

  // ---- Turning methods off ----

  predicate NamesMethod(ids: seq<int>) {
    exists id :: id in ids && id < MAXRCDS
  }

  // The request names at least one method: some name is not an empty one.
  predicate NamesSomething(names: string) {
    Indices(GetOptLst.Parse(names)).Some? && NamesMethod(Indices(GetOptLst.Parse(names)).value)
  }

  // What an off request turns off, method by method
  ghost predicate TurnsOff(list: NameList, id: int)
    requires MethodId(id)
  {
    if forall i :: MethodId(i) ==> list[i].asked != AskOff then id == KERN_CSA
    else list[id].asked == AskOff || (Linked(id) && list[KERN_CSA].asked == AskOff)
  }

  lemma StopStates(s: State, list: NameList, id: int)
    requires ValidState(s) && MethodId(id)
    ensures var r := Message(NoPath, ToStop(WithLinked(list), MAXRCDS));
            Get(StopStep(s, r).0.tab, id) == if TurnsOff(list, id) then OFF else Get(s.tab, id)
  {
    hide ToStop, TurnOff, Set, Get, Mask, Message, Named;
    var l := WithLinked(list);
    var ms := ToStop(l, MAXRCDS);
    var r := Message(NoPath, ms);
    TurnOffTurnsOff(s.tab, Entries(r), id);
    ToStopNames(l, MAXRCDS, id);
    Single(Method(KERN_CSA, 0), id);
    if ms == [] {
      forall i | MethodId(i)
        ensures list[i].asked != AskOff
      {
        ToStopNames(l, MAXRCDS, i);
        EmptyNamesNobody(i);
        assert l[KERN_CSA].asked == list[KERN_CSA].asked;
        assert MethodId(KERN_CSA);
        ToStopNames(l, MAXRCDS, KERN_CSA);
        EmptyNamesNobody(KERN_CSA);
      }
    } else {
      assert Named(ms, ms[0].id) by {
        FirstNamed(ms);
      }
      ToStopNames(l, MAXRCDS, ms[0].id);
      assert !(forall i :: MethodId(i) ==> list[i].asked != AskOff);
    }
  }

  lemma EmptyNamesNobody(id: int)
    ensures !Named([], id)
  {
  }

  lemma FirstNamed(ms: seq<Method>)
    requires ms != []
    ensures Named(ms, ms[0].id)
  {
  }

  // After an accepted off command linked records are still based exactly when the command named something, or there was
  // no linked record or threshold on to begin with: an empty name turns the base record off alone.
  lemma OffKeepsBasedIff(s: State, names: string)
    requires ValidState(s) && Based(s.tab) && Sends(s, Off(names)).Some?
    ensures Based(Obey(s, Off(names)).tab) <==> NamesSomething(names) || !LinkedOn(s.tab)
  {
    hide StopStep, ToStop, Message, Indices, Get, Set, WithLinked;
    var ids := Indices(GetOptLst.Parse(names)).value;
    var list := Ask(Unset(), ids, AskOff);
    var t := Obey(s, Off(names));
    forall id | MethodId(id)
      ensures list[id].asked == AskOff <==> id in ids
      ensures Get(t.tab, id) == if TurnsOff(list, id) then OFF else Get(s.tab, id)
    {
      StopStates(s, list, id);
    }
    assert MethodId(KERN_CSA);
    if NamesSomething(names) {
      if id :| id in ids && id < MAXRCDS {
        assert MethodId(id) && list[id].asked == AskOff;
      }
      if LinkedOn(t.tab) {
        if id :| Linked(id) && Get(t.tab, id).on {
          assert MethodId(id) && !TurnsOff(list, id);
          assert LinkedOn(s.tab);
        }
      }
    } else {
      assert forall id :: MethodId(id) ==> (TurnsOff(list, id) <==> id == KERN_CSA);
      assert !Get(t.tab, KERN_CSA).on;
      assert forall id :: Linked(id) ==> MethodId(id) && Get(t.tab, id) == Get(s.tab, id);
      assert LinkedOn(t.tab) == LinkedOn(s.tab);
    }
  }

  // ---- All sequences of commands ----

  // What may happen to the daemon: a csaswitch command, or any event but a start, stop or halt sent by somebody else
  datatype Happening = Ran(command: Command) | Other(event: Event)

  ghost predicate ValidHappening(h: Happening) {
    h.Other? ==> ValidEvent(h.event) && !h.event.Start? && !h.event.Stop? && !h.event.Halt?
  }

  function Happens(s: State, h: Happening): (r: State)
    requires ValidState(s) && ValidHappening(h)
    ensures ValidState(r)
  {
    match h case Ran(c) => Obey(s, c) case Other(e) => Step(s, e)
  }

  ghost predicate ValidHappenings(hs: seq<Happening>) {
    forall k :: 0 <= k < |hs| ==> ValidHappening(hs[k])
  }

  function After(hs: seq<Happening>): (s: State)
    requires ValidHappenings(hs)
    ensures ValidState(s)
  {
    if hs == [] then INIT else Happens(After(hs[..|hs| - 1]), hs[|hs| - 1])
  }

  // Nobody turns off an empty name.
  predicate NoEmptyOff(hs: seq<Happening>) {
    forall k :: 0 <= k < |hs| && hs[k].Ran? && hs[k].command.Off? ==> NamesSomething(hs[k].command.list)
  }

  // Over every sequence of csaswitch commands and other events in which no off command has an empty name only, a linked
  // record or threshold that is on implies that the base record is on.
  lemma {:induction false} LinkedImpliesBase(hs: seq<Happening>)
    requires ValidHappenings(hs) && NoEmptyOff(hs)
    ensures Based(After(hs).tab)
    decreases |hs|
  {
    hide Based, Step, Sends, NamesSomething;
    if hs == [] {
      InitBased();
    } else {
      var before, h := hs[..|hs| - 1], hs[|hs| - 1];
      LinkedImpliesBase(before);
      var s := After(before);
      match h
      case Other(e) => OtherEventsKeepTables(s, e);
      case Ran(c) =>
        match c
        case On(_, _, _, _, _, _, _) => OnKeepsBased(s, c);
        case Switch(_, _, _, _, _, _) => SwitchKeepsBased(s, c);
        case Off(names) =>
          if Sends(s, c).Some? {
            OffKeepsBasedIff(s, names);
          }
        case HaltAll =>
          HaltKeepsBased(s);
          HaltSends(s);
    }
  }

  lemma HaltSends(s: State)
    requires ValidState(s)
    ensures Sends(s, HaltAll) == Some(Halt)
  {
  }

  lemma InitBased()
    ensures Based(INIT.tab)
  {
    HaltKeepsBased(INIT);
  }

  // ---- An off command with an empty name ----

  lemma {:induction false} EmptyNameIsEndMark(i: nat)
    requires i <= MAXRCDS
    ensures CheckName("", i) == MAXRCDS
    decreases MAXRCDS - i
  {
    if i < MAXRCDS {
      assert i != MAXKDS ==> |NAMES[i]| > 0;
      EmptyNameIsEndMark(i + 1);
    } else {
      assert SameName(NAMES[i], "");
    }
  }

  lemma IndicesOfOne(name: string)
    requires CheckName(name, 0) >= 0
    ensures Indices([name]) == Some([CheckName(name, 0)])
  {
    hide CheckName;
    var names, none: seq<string> := [name], [];
    assert names[|names| - 1] == name && names[..|names| - 1] == none;
    assert Indices(none) == Some([]);
    assert [] + [CheckName(name, 0)] == [CheckName(name, 0)];
  }

  lemma AfterOne(h: Happening)
    requires ValidHappening(h)
    ensures ValidHappenings([h]) && After([h]) == Happens(INIT, h)
  {
    var hs := [h];
    assert hs[|hs| - 1] == h && hs[..|hs| - 1] == [];
    assert After([]) == INIT;
  }

  lemma EmptyListNamesNothing()
    ensures Indices(GetOptLst.Parse("")) == Some([MAXRCDS])
    ensures !NamesSomething("")
  {
    EmptyNameIsEndMark(0);
    assert GetOptLst.Parse("") == [""];
    IndicesOfOne("");
  }

  const BASE_AND_MEM: Conf := [IsOn(None), Missing, Missing, Missing, Missing, Missing, IsOn(None), Missing, Missing, Missing,
                               Missing, Missing, Missing]

  const START_BOTH: Command := On(None, None, None, false, BASE_AND_MEM, true, Regular)

  // The name list csaswitch makes of that csa.conf
  lemma BothAsked()
    ensures AnyTaken(BASE_AND_MEM)
    ensures var list := Override(WithBase(Configured(Unset(), BASE_AND_MEM), false), 0, 0);
            && list[KERN_CSA].asked == AskOn && list[RCD_MEM].asked == AskOn
            && Sends(INIT, START_BOTH) == Some(Start(Message(Regular, ToStart(list, MAXRCDS))))
  {
    hide ToStart, Message, Get, Set;
    NoneOn();
    assert Takes(BASE_AND_MEM, KERN_CSA) && Takes(BASE_AND_MEM, RCD_MEM);
  }

  lemma BothStarted()
    ensures Get(Obey(INIT, START_BOTH).tab, RCD_MEM).on && Get(Obey(INIT, START_BOTH).tab, KERN_CSA).on
  {
    hide TurnOn, Set, Get, Mask, ToStart, Message, Sends, Override, WithBase, Configured;
    BothAsked();
    var list := Override(WithBase(Configured(Unset(), BASE_AND_MEM), false), 0, 0);
    var ms := ToStart(list, MAXRCDS);
    ToStartNames(list, MAXRCDS, RCD_MEM);
    ToStartNames(list, MAXRCDS, KERN_CSA);
    TurnOnTurnsOn(INIT.tab, Entries(Message(Regular, ms)), RCD_MEM);
    TurnOnTurnsOn(INIT.tab, Entries(Message(Regular, ms)), KERN_CSA);
  }

  // Turn on what a csa.conf with the base record and memory records asks for, then turn off an empty name: memory
  // records stay on without the base record.
  lemma EmptyOffBreaksBase()
    ensures var hs := [Ran(START_BOTH), Ran(Off(""))]; ValidHappenings(hs) && !Based(After(hs).tab)
  {
    hide Obey, Sends, Get, Indices;
    var hs := [Ran(START_BOTH), Ran(Off(""))];
    var s := Obey(INIT, START_BOTH);
    AfterOne(Ran(START_BOTH));
    assert hs[..1] == [Ran(START_BOTH)];
    assert After(hs) == Obey(s, Off(""));
    BothStarted();
    assert Linked(RCD_MEM) && LinkedOn(s.tab) && Based(s.tab);
    EmptyListNamesNothing();
    EmptyOffSends(s);
    OffKeepsBasedIff(s, "");
  }

  lemma EmptyOffSends(s: State)
    requires ValidState(s) && Indices(GetOptLst.Parse("")).Some?
    ensures Sends(s, Off("")).Some?
  {
    hide Indices, ToStop, WithLinked, Ask;
  }
}
