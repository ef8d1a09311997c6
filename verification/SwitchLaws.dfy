// What a csaswitch command does to the daemon's methods, told by the command and the tables before and after.

module SwitchLaws {
  import opened Basics
  import opened DaemonSpec
  import opened DaemonProofs
  import opened SwitchSpec
  import GetOptLst

  // ---- What a command asks for ----

  // A name of the list is that of this method.
  ghost predicate Mentions(names: seq<string>, id: int) {
    exists k :: 0 <= k < |names| && IsNamed(id, names[k])
  }

  ghost predicate Known(name: string) {
    exists id :: IsNamed(id, name)
  }

  // Every name of the list is that of a method, or empty.
  ghost predicate AllKnown(names: seq<string>) {
    forall k :: 0 <= k < |names| ==> Known(names[k])
  }

  // csa.conf turns this method on: csa, wkmg, mem, io, delay, and the thresholds memt and time with a value
  predicate Configures(config: Conf, id: int) {
    && id in {0, 2, 6, 7, 8, 9, 10} && config[id].IsOn?
    && (id == 9 || id == 10 ==> config[id].threshold.Some? && config[id].threshold.value >= 0)
  }

  // The methods an on command is about: those it names, or those of csa.conf when it names none
  ghost predicate AsksFor(c: Command, id: int)
    requires c.On?
  {
    if c.names.Some? then Mentions(GetOptLst.Parse(c.names.value), id) else Configures(c.config, id)
  }

  // A linked record or a threshold
  predicate OnTop(id: int) {
    6 <= id <= 10
  }

  lemma NamesDiffer(i: int, j: int, name: string)
    requires IsNamed(i, name) && IsNamed(j, name)
    ensures i == j
  {
    assert |NAMES[i]| == |NAMES[j]|;
    assert |NAMES[i]| > 0 ==> Lower(NAMES[i][0]) == Lower(NAMES[j][0]);
    assert |NAMES[i]| > 4 ==> Lower(NAMES[i][4]) == Lower(NAMES[j][4]);
    assert |NAMES[i]| > 5 ==> Lower(NAMES[i][5]) == Lower(NAMES[j][5]);
  }

  lemma FirstIsOnly(name: string)
    ensures CheckName(name, 0) >= 0 <==> Known(name)
    ensures CheckName(name, 0) >= 0 ==> forall id :: IsNamed(id, name) <==> id == CheckName(name, 0)
  {
    hide IsNamed;
    var first := CheckName(name, 0);
    if first >= 0 {
      forall id | IsNamed(id, name)
        ensures id == first
      {
        NamesDiffer(id, first, name);
      }
    } else {
      NoSuchName(name);
    }
  }

  lemma MentionsLast(names: seq<string>, id: int)
    requires names != []
    ensures var n := |names| - 1; Mentions(names, id) <==> Mentions(names[..n], id) || IsNamed(id, names[n])
  {
    hide IsNamed;
    var n := |names| - 1;
    if Mentions(names, id) && !IsNamed(id, names[n]) {
      if k :| 0 <= k < |names| && IsNamed(id, names[k]) {
        assert names[..n][k] == names[k];
      }
    }
  }

  lemma AllKnownLast(names: seq<string>)
    requires names != []
    ensures var n := |names| - 1; AllKnown(names) <==> AllKnown(names[..n]) && Known(names[n])
  {
    hide Known;
    assert forall k :: 0 <= k < |names| - 1 ==> names[..|names| - 1][k] == names[k];
  }

  lemma {:induction false} IndicesAre(names: seq<string>, id: int)
    ensures Indices(names).Some? <==> AllKnown(names)
    ensures Indices(names).Some? ==> (id in Indices(names).value <==> Mentions(names, id))
    decreases |names|
  {
    hide IsNamed, Known, Mentions, AllKnown;
    if names == [] {
      NoNames(names, id);
    } else {
      IndicesAre(names[..|names| - 1], id);
      MentionsLast(names, id);
      AllKnownLast(names);
      FirstIsOnly(names[|names| - 1]);
    }
  }

  lemma NoNames(names: seq<string>, id: int)
    requires names == []
    ensures !Mentions(names, id) && AllKnown(names)
  {
  }

  lemma NoSuchName(name: string)
    requires CheckName(name, 0) < 0
    ensures !exists id :: IsNamed(id, name)
  {
  }

  // ---- The name list ----

  lemma OptionsRead(names: Option<string>, asked: Asked, id: int)
    requires 0 <= id < NUM_NAMES
    ensures AskedFor(names, asked) == None <==> names.Some? && !AllKnown(GetOptLst.Parse(names.value))
    ensures AskedFor(names, asked).Some? ==>
              AskedFor(names, asked).value[id] ==
              Entry(if names.Some? && Mentions(GetOptLst.Parse(names.value), id) then asked else NotSet, 0)
  {
    hide Mentions, AllKnown, Indices;
    if names.Some? {
      IndicesAre(GetOptLst.Parse(names.value), id);
    }
  }

  lemma TakesIs(config: Conf, id: int)
    ensures Takes(config, id) <==> Configures(config, id)
  {
  }

  // The threshold an option brings, and when it is refused
  ghost predicate ThresholdRefused(c: Command, id: int, given: Option<int>)
    requires c.On?
  {
    var named := c.names.Some? && AsksFor(c, id);
    (named && given == None) || ((named || c.names == None) && given.Some? && given.value < 0)
  }

  lemma ThresholdIs(c: Command, id: int, given: Option<int>)
    requires c.On? && (id == 9 || id == 10) && AskedFor(c.names, AskOn).Some?
    ensures var m := Threshold(AskedFor(c.names, AskOn).value, id, c.names, given);
            && (m == None <==> ThresholdRefused(c, id, given))
            && (m.Some? && AsksFor(c, id) ==> m.value == if given.Some? then given.value else 0)
            && (m.Some? ==> m.value >= 0)
  {
    hide Mentions, Indices;
    OptionsRead(c.names, AskOn, id);
  }

  // Nothing asked for goes without the base record.
  ghost predicate NeedsBase(c: Command, csaOn: bool)
    requires c.On?
  {
    !csaOn && exists id :: OnTop(id) && AsksFor(c, id)
  }

  lemma ConfiguredIs(list: NameList, config: Conf, id: int)
    requires 0 <= id < NUM_NAMES && list[id] == Entry(NotSet, 0)
    ensures Configured(list, config)[id] ==
            if !Configures(config, id) then Entry(NotSet, 0)
            else Entry(AskOn, if id == 9 || id == 10 then config[id].threshold.value else 0)
  {
    TakesIs(config, id);
  }

  // The threshold of csa.conf
  function ConfThreshold(config: Conf, id: int): int {
    if (id == 9 || id == 10) && Configures(config, id) then config[id].threshold.value else 0
  }

  // What csa.conf or the command line asks for, before the base record is added
  lemma WishesAre(c: Command, id: int)
    requires c.On? && AskedFor(c.names, AskOn).Some? && 0 <= id < NUM_NAMES
    ensures var asked := AskedFor(c.names, AskOn).value;
            var list := if c.names == None then Configured(asked, c.config) else asked;
            list[id] == Entry(if AsksFor(c, id) then AskOn else NotSet,
                              if c.names == None then ConfThreshold(c.config, id) else 0)
  {
    hide Mentions, Indices, Configured;
    OptionsRead(c.names, AskOn, id);
    if c.names == None {
      ConfiguredIs(AskedFor(c.names, AskOn).value, c.config, id);
    }
  }

  lemma BaseIs(list: NameList, csaOn: bool, c: Command)
    requires c.On? && forall id :: 0 <= id < NUM_NAMES ==> (list[id].asked == AskOn <==> AsksFor(c, id))
    ensures WithBase(list, csaOn) == if NeedsBase(c, csaOn) then list[KERN_CSA := list[KERN_CSA].(asked := AskOn)] else list
  {
    hide AsksFor;
    assert forall id :: OnTop(id) <==> Linked(id);
    if AsksLinked(list) {
      if id :| RCD_MEM <= id <= THD_TIME && Linked(id) && list[id].asked == AskOn {
        assert OnTop(id) && AsksFor(c, id);
      }
    }
    if exists id :: OnTop(id) && AsksFor(c, id) {
      if id :| OnTop(id) && AsksFor(c, id) {
        assert Linked(id) && list[id].asked == AskOn;
      }
    }
  }

  // What the request will ask for
  ghost predicate WillAsk(c: Command, csaOn: bool, id: int)
    requires c.On?
  {
    AsksFor(c, id) || (id == 0 && NeedsBase(c, csaOn))
  }

  // The parameter that goes with it: the option's threshold if it is positive, otherwise that of csa.conf
  ghost function Wish(c: Command, id: int): int
    requires c.On?
  {
    var given := if id == 9 then c.mem else if id == 10 then c.time else None;
    if id != 9 && id != 10 then 0
    else if given.Some? && given.value > 0 then given.value
    else if c.names == None then ConfThreshold(c.config, id)
    else 0
  }

  // The name list at the end of an on command
  ghost predicate ListIs(list: NameList, c: Command, csaOn: bool)
    requires c.On?
  {
    forall id :: 0 <= id < NUM_NAMES ==>
      && (list[id].asked == AskOn <==> WillAsk(c, csaOn, id))
      && (list[id].asked == AskOn ==> list[id].param == Wish(c, id))
  }

  lemma OverrideIs(list: NameList, c: Command, csaOn: bool, m: int, t: int)
    requires c.On?
    requires forall id :: 0 <= id < NUM_NAMES ==>
               list[id] == Entry(if AsksFor(c, id) then AskOn else NotSet, if c.names == None then ConfThreshold(c.config, id) else 0)
    requires AsksFor(c, 9) ==> m == if c.mem.Some? then c.mem.value else 0
    requires AsksFor(c, 10) ==> t == if c.time.Some? then c.time.value else 0
    ensures ListIs(Override(WithBase(list, csaOn), m, t), c, csaOn)
  {
    hide Mentions, WithBase, AsksFor, Configures, NeedsBase;
    BaseIs(list, csaOn, c);
  }

  lemma NothingTaken(config: Conf)
    ensures AnyTaken(config) <==> exists id :: Configures(config, id)
  {
    hide Takes, Configures;
    forall id
      ensures Takes(config, id) <==> Configures(config, id)
    {
      TakesIs(config, id);
    }
    if id :| Configures(config, id) {
      assert Takes(config, id) && 0 <= id < MAXRCDS by { InConf(config, id); }
    }
  }

  lemma InConf(config: Conf, id: int)
    requires Configures(config, id)
    ensures 0 <= id < MAXRCDS
  {
  }

  lemma ListAtEnd(c: Command, csaOn: bool)
    requires c.On? && AskedFor(c.names, AskOn).Some?
    requires !ThresholdRefused(c, 9, c.mem) && !ThresholdRefused(c, 10, c.time)
    ensures var asked := AskedFor(c.names, AskOn).value;
            var m, t := Threshold(asked, THD_MEM, c.names, c.mem), Threshold(asked, THD_TIME, c.names, c.time);
            var list := StartList(asked, c.names == None, c.config, csaOn);
            && m.Some? && t.Some?
            && (list == None <==> c.names == None && !exists id :: Configures(c.config, id))
            && (list.Some? ==> ListIs(Override(list.value, m.value, t.value), c, csaOn))
  {
    hide Mentions, Indices, Configured, WithBase, AskedFor, AsksFor, Threshold, Configures, Takes, NeedsBase, ListIs, Override,
         ThresholdRefused, ConfThreshold, AnyTaken;
    var asked := AskedFor(c.names, AskOn).value;
    var m, t := Threshold(asked, THD_MEM, c.names, c.mem), Threshold(asked, THD_TIME, c.names, c.time);
    ThresholdIs(c, THD_MEM, c.mem);
    ThresholdIs(c, THD_TIME, c.time);
    NothingTaken(c.config);
    var list := if c.names == None then Configured(asked, c.config) else asked;
    forall id | 0 <= id < NUM_NAMES
      ensures list[id] == Entry(if AsksFor(c, id) then AskOn else NotSet, if c.names == None then ConfThreshold(c.config, id) else 0)
    {
      WishesAre(c, id);
    }
    OverrideIs(list, c, csaOn, m.value, t.value);
  }

  // ---- The on command ----

  lemma {:induction false} StartedParam(list: NameList, k: nat, id: int)
    requires k <= MAXRCDS && 0 <= id < k && id != MAXKDS && list[id].asked == AskOn
    ensures ParamOf(ToStart(list, k), id) == if id == 10 then list[id].param * 1000000 else list[id].param
    decreases k
  {
    var before, all := ToStart(list, k - 1), ToStart(list, k);
    if id < k - 1 {
      StartedParam(list, k - 1, id);
      if all != before {
        assert all[..|all| - 1] == before;
      }
    }
  }

  // An accepted start request made from a name list: what is asked for is on, with its parameter; csa alone, with
  // parameter 0, when nothing is asked for; everything else is as before.
  lemma ListStarts(s: State, path: Path, list: NameList, id: int)
    requires ValidState(s) && MethodId(id) && (path == Regular || (path == NoPath && s.sys.Some?))
    ensures Get(StartStep(s, Message(path, ToStart(list, MAXRCDS))).0.tab, id) ==
            if list[id].asked == AskOn then Stat(true, if id == 10 then list[id].param * 1000000 else list[id].param)
            else if id == 0 && (forall i :: MethodId(i) ==> list[i].asked != AskOn) then Stat(true, 0)
            else Get(s.tab, id)
  {
    hide ToStart, TurnOn, Set, Get, Mask, Message, Named, ParamOf;
    var ms := ToStart(list, MAXRCDS);
    var entries := Entries(Message(path, ms));
    TurnOnTurnsOn(s.tab, entries, id);
    forall i | MethodId(i)
      ensures Named(ms, i) <==> list[i].asked == AskOn
    {
      ToStartNames(list, MAXRCDS, i);
    }
    if ms == [] {
      forall i
        ensures !Named(ms, i)
      {
        EmptyNamesNobody(i);
      }
      OnlyCleared(id);
    } else {
      FirstNamed(ms);
      assert MethodId(ms[0].id);
      if list[id].asked == AskOn {
        StartedParam(list, MAXRCDS, id);
      }
    }
  }

  lemma OnlyCleared(id: int)
    ensures var ms := [Method(KERN_CSA, 0)]; (Named(ms, id) <==> id == 0) && ParamOf(ms, id) == 0
  {
    Single(Method(KERN_CSA, 0), id);
  }

  // A command that names nothing but empty names asks for nothing.
  ghost predicate NothingAsked(c: Command, csaOn: bool)
    requires c.On?
  {
    forall id :: MethodId(id) ==> !WillAsk(c, csaOn, id)
  }

  // When an on command is refused before it reaches the daemon: a name nobody knows, a bad threshold, nothing configured,
  // or no usable file when one is needed.
  lemma OnRefusedIff(s: State, c: Command)
    requires ValidState(s) && c.On?
    ensures Sends(s, c) == None <==>
            || (c.names.Some? && !AllKnown(GetOptLst.Parse(c.names.value)))
            || ThresholdRefused(c, 9, c.mem) || ThresholdRefused(c, 10, c.time)
            || (c.names == None && !exists id :: Configures(c.config, id))
            || ((c.pathGiven || !AnyOn(s.tab.dmd)) && !c.fileOk)
  {
    hide Mentions, Indices, AskedFor, AsksFor, Threshold, Configures, ListIs, Override, ThresholdRefused, AllKnown, AnyOn,
         StartList, Message, ToStart;
    OptionsRead(c.names, AskOn, 0);
    if AskedFor(c.names, AskOn).Some? {
      ThresholdIs(c, THD_MEM, c.mem);
      ThresholdIs(c, THD_TIME, c.time);
      if !ThresholdRefused(c, 9, c.mem) && !ThresholdRefused(c, 10, c.time) {
        ListAtEnd(c, s.tab.dmd[KERN_CSA].on);
      }
    }
  }

  // The request an on command sends
  lemma OnSends(s: State, c: Command)
    requires ValidState(s) && c.On? && Sends(s, c).Some?
    ensures exists list: NameList :: ListIs(list, c, s.tab.dmd[KERN_CSA].on)
              && Sends(s, c) == Some(Start(Message(if !c.pathGiven && AnyOn(s.tab.dmd) then NoPath else c.file, ToStart(list, MAXRCDS))))
  {
    hide Mentions, Indices, AskedFor, AsksFor, Threshold, Configures, ListIs, Override, ThresholdRefused, AllKnown, AnyOn,
         StartList, Message, ToStart;
    var csaOn := s.tab.dmd[KERN_CSA].on;
    ThresholdIs(c, THD_MEM, c.mem);
    ThresholdIs(c, THD_TIME, c.time);
    ListAtEnd(c, csaOn);
    var asked := AskedFor(c.names, AskOn).value;
    var m, t := Threshold(asked, THD_MEM, c.names, c.mem), Threshold(asked, THD_TIME, c.names, c.time);
    var list := Override(StartList(asked, c.names == None, c.config, csaOn).value, m.value, t.value);
    assert ListIs(list, c, csaOn);
  }

  // What an accepted on command makes of the methods: every one the command is about is on, memt with the -m value and
  // time with the -t value if they are positive and with what csa.conf says otherwise, time in microseconds; the base record
  // is on, too, when a linked record or threshold is asked for; a command that names nothing turns on the base record
  // alone; and every other method is as before.
  ghost predicate OnEffect(before: Tables, c: Command, after: Tables, id: int)
    requires ValidTables(before) && ValidTables(after) && c.On? && MethodId(id)
  {
    var csaOn := Get(before, KERN_CSA).on;
    Get(after, id) ==
      if id == 9 && AsksFor(c, id) then
        Stat(true, if c.mem.Some? && c.mem.value > 0 then c.mem.value else if c.names == None then ConfThreshold(c.config, 9) else 0)
      else if id == 10 && AsksFor(c, id) then
        Stat(true, 1000000 * if c.time.Some? && c.time.value > 0 then c.time.value
                             else if c.names == None then ConfThreshold(c.config, 10) else 0)
      else if AsksFor(c, id) || (id == 0 && (NeedsBase(c, csaOn) || NothingAsked(c, csaOn))) then Stat(true, 0)
      else Get(before, id)
  }

  // The main result for the on command, when the daemon accepts the request.
  lemma OnDoes(s: State, c: Command, id: int)
    requires ValidState(s) && c.On? && Sends(s, c).Some? && MethodId(id)
    requires var path := if !c.pathGiven && AnyOn(s.tab.dmd) then NoPath else c.file; path == Regular || (path == NoPath && s.sys.Some?)
    ensures OnEffect(s.tab, c, Obey(s, c).tab, id)
  {
    hide Sends, ListIs, StartStep, Message, ToStart, AnyOn, AsksFor, ConfThreshold, NeedsBase;
    OnSends(s, c);
    var csaOn := s.tab.dmd[KERN_CSA].on;
    var path := if !c.pathGiven && AnyOn(s.tab.dmd) then NoPath else c.file;
    if list: NameList :| ListIs(list, c, csaOn) && Sends(s, c) == Some(Start(Message(path, ToStart(list, MAXRCDS)))) {
      ListStarts(s, path, list, id);
      forall i | MethodId(i)
        ensures list[i].asked == AskOn <==> WillAsk(c, csaOn, i)
        ensures list[i].asked == AskOn ==> list[i].param == Wish(c, i)
      {
        ListSays(list, c, csaOn, i);
      }
    }
  }

  lemma OnDoesAll(s: State, c: Command)
    requires ValidState(s) && c.On? && Sends(s, c).Some?
    requires var path := if !c.pathGiven && AnyOn(s.tab.dmd) then NoPath else c.file; path == Regular || (path == NoPath && s.sys.Some?)
    ensures forall id :: MethodId(id) ==> OnEffect(s.tab, c, Obey(s, c).tab, id)
  {
    hide Sends, Obey, AnyOn, OnEffect, MethodId;
    forall id | MethodId(id)
      ensures OnEffect(s.tab, c, Obey(s, c).tab, id)
    {
      OnDoes(s, c, id);
    }
  }

  // An off command as a whole
  ghost predicate OffEffects(s: State, names: string, t: State)
    requires ValidState(s) && ValidState(t)
  {
    if AllKnown(GetOptLst.Parse(names)) then forall id :: MethodId(id) ==> OffEffect(s.tab, names, t.tab, id) else t == s
  }

  lemma OffDoesAll(s: State, names: string)
    requires ValidState(s)
    ensures OffEffects(s, names, Obey(s, Off(names)))
  {
    hide OffEffect, AllKnown, Sends, StopStep, MethodId;
    CsaIsMethod();
    OffDoes(s, names, KERN_CSA);
    forall id | MethodId(id)
      ensures AllKnown(GetOptLst.Parse(names)) ==> OffEffect(s.tab, names, Obey(s, Off(names)).tab, id)
    {
      OffDoes(s, names, id);
    }
  }

  lemma CsaIsMethod()
    ensures MethodId(KERN_CSA)
  {
  }

  // When the daemon accepts a request made here
  lemma StartAnswer(s: State, path: Path, ms: seq<Method>)
    requires ValidState(s) && |ms| <= NUM_KDRCDS && forall m :: m in ms ==> MethodId(m.id)
    ensures var (t, error) := StartStep(s, Message(path, ms));
            && (error == Success <==> path == Regular || (path == NoPath && s.sys.Some?))
            && (error != Success ==> t == s)
  {
    hide Message, TurnOn, Mask;
  }

  lemma ListSays(list: NameList, c: Command, csaOn: bool, id: int)
    requires c.On? && ListIs(list, c, csaOn) && MethodId(id)
    ensures list[id].asked == AskOn <==> WillAsk(c, csaOn, id)
    ensures list[id].asked == AskOn ==> list[id].param == Wish(c, id)
  {
    hide WillAsk, Wish;
  }

  // ---- The off command ----

  // What an off command makes of the methods: every one it names is off, with the base record all linked records and
  // thresholds, and the base record alone if it names nothing; every other method is as before.
  ghost predicate OffEffect(before: Tables, names: string, after: Tables, id: int)
    requires ValidTables(before) && ValidTables(after) && MethodId(id)
  {
    var argv := GetOptLst.Parse(names);
    Get(after, id) ==
      if Mentions(argv, id) || (OnTop(id) && Mentions(argv, 0)) || (id == 0 && forall i :: MethodId(i) ==> !Mentions(argv, i))
      then Stat(false, 0) else Get(before, id)
  }

  // An off command is sent unless it has a name nobody knows.
  lemma OffDoes(s: State, names: string, id: int)
    requires ValidState(s) && MethodId(id)
    ensures Sends(s, Off(names)) == None <==> !AllKnown(GetOptLst.Parse(names))
    ensures AllKnown(GetOptLst.Parse(names)) ==> OffEffect(s.tab, names, Obey(s, Off(names)).tab, id)
  {
    hide StopStep, ToStop, Message, Indices, Get, Set, WithLinked, AskedFor, Mentions, AllKnown;
    var argv := GetOptLst.Parse(names);
    forall i | 0 <= i < NUM_NAMES
      ensures AskedFor(Some(names), AskOff) == None <==> !AllKnown(argv)
      ensures AllKnown(argv) ==> (AskedFor(Some(names), AskOff).value[i].asked == AskOff <==> Mentions(argv, i))
    {
      OptionsRead(Some(names), AskOff, i);
    }
    OptionsRead(Some(names), AskOff, 0);
    if AllKnown(argv) {
      StopStates(s, AskedFor(Some(names), AskOff).value, id);
      assert MethodId(KERN_CSA);
    }
  }

  // ---- The switch command when everything is off ----

  // The methods a switch turns on when none is on: those of csa.conf, and those it names
  ghost predicate SwitchesOn(c: Command, id: int)
    requires c.Switch?
  {
    Configures(c.config, id) || (c.names.Some? && Mentions(GetOptLst.Parse(c.names.value), id))
  }

  lemma SwitchList(c: Command, asked: NameList, id: int)
    requires c.Switch? && AskedFor(c.names, AskOn) == Some(asked) && 0 <= id < NUM_NAMES
    ensures Configured(asked, c.config)[id] == Entry(if SwitchesOn(c, id) then AskOn else NotSet, ConfThreshold(c.config, id))
  {
    hide Mentions, Indices, AskedFor;
    OptionsRead(c.names, AskOn, id);
    TakesIs(c.config, id);
  }

  lemma SwitchBase(c: Command, list: NameList)
    requires c.Switch? && forall id :: 0 <= id < NUM_NAMES ==> (list[id].asked == AskOn <==> SwitchesOn(c, id))
    ensures WithBase(list, false) ==
            if exists id :: OnTop(id) && SwitchesOn(c, id) then list[KERN_CSA := list[KERN_CSA].(asked := AskOn)] else list
  {
    hide SwitchesOn;
    if AsksLinked(list) {
      if id :| RCD_MEM <= id <= THD_TIME && Linked(id) && list[id].asked == AskOn {
        assert OnTop(id) && SwitchesOn(c, id);
      }
    }
    if id :| OnTop(id) && SwitchesOn(c, id) {
      assert Linked(id) && list[id].asked == AskOn;
    }
  }

  // With no kernel or daemon method on, a switch turns on what csa.conf asks for and what it names, with the thresholds of
  // csa.conf, and the base record when a linked record or threshold is among them.
  lemma SwitchStarts(s: State, c: Command, id: int)
    requires ValidState(s) && c.Switch? && !AnyOn(s.tab.dmd) && Sends(s, c).Some? && c.file == Regular && MethodId(id)
    ensures Get(Obey(s, c).tab, id) ==
            if SwitchesOn(c, id) then Stat(true, if id == 10 then ConfThreshold(c.config, 10) * 1000000 else ConfThreshold(c.config, id))
            else if id == 0 && exists i :: OnTop(i) && SwitchesOn(c, i) then Stat(true, 0)
            else Get(s.tab, id)
  {
    hide StartStep, Message, ToStart, AnyOn, Threshold, WithBase, Configured, Configures, AnyTaken, Get, SwitchesOn, Indices,
         ConfThreshold, AskedFor;
    var asked := AskedFor(c.names, AskOn).value;
    forall i | 0 <= i < NUM_NAMES
      ensures Configured(asked, c.config)[i] == Entry(if SwitchesOn(c, i) then AskOn else NotSet, ConfThreshold(c.config, i))
    {
      SwitchList(c, asked, i);
    }
    SwitchBase(c, Configured(asked, c.config));
    ListStarts(s, Regular, WithBase(Configured(asked, c.config), false), id);
    NothingTaken(c.config);
    SomethingOn(c);
    NoParam(c.config);
  }

  lemma SomethingOn(c: Command)
    requires c.Switch? && exists id :: Configures(c.config, id)
    ensures exists id :: MethodId(id) && SwitchesOn(c, id)
  {
    hide Mentions;
    if id :| Configures(c.config, id) {
      assert MethodId(id) && SwitchesOn(c, id);
    }
  }

  lemma NoParam(config: Conf)
    ensures ConfThreshold(config, 0) == 0
  {
  }
}
