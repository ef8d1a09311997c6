// csaswitch as it runs (csa/cmd/csaswitch.c): the name list is filled in, the pacct file moved aside, the daemon asked.

module Csaswitch {
  import opened Basics
  import opened DaemonSpec
  import opened SwitchSpec
  import opened SwitchLaws
  import opened Daemon

  // ---- File names ----

  function Digits(n: nat): (s: string)
    ensures s != ""
  {
    if n < 10 then ["0123456789"[n]] else Digits(n / 10) + ["0123456789"[n % 10]]
  }

  function Digit(c: char): int {
    (c as int) - 48
  }

  function Number(s: string): int {
    if s == "" then 0 else 10 * Number(s[..|s| - 1]) + Digit(s[|s| - 1])
  }

  lemma {:induction false} NumberOfDigits(n: nat)
    ensures Number(Digits(n)) == n
  {
    if n < 10 {
      assert Digits(n)[..0] == "" && Number("") == 0;
    } else {
      NumberOfDigits(n / 10);
      assert Digits(n)[..|Digits(n)| - 1] == Digits(n / 10);
    }
  }

  // pacct#: path with a number behind it
  function Numbered(path: string, n: nat): string {
    path + Digits(n)
  }

  lemma NumberedDiffer(path: string, m: nat, n: nat)
    requires m != n
    ensures Numbered(path, m) != Numbered(path, n)
  {
    NumberOfDigits(m);
    NumberOfDigits(n);
    assert Numbered(path, m)[|path|..] == Digits(m);
    assert Numbered(path, n)[|path|..] == Digits(n);
  }

  lemma SubsetSize(a: set<string>, b: set<string>)
    requires a <= b
    ensures |a| <= |b|
  {
    assert b == a + (b - a);
  }

  lemma ToStopStep(list: NameList, k: nat)
    requires k < MAXRCDS
    ensures ToStop(list, 0) == []
    ensures ToStop(list, k + 1) == ToStop(list, k) + if k != MAXKDS && list[k].asked == AskOff then [Method(k, 0)] else []
  {
  }

  lemma ToStartStep(list: NameList, k: nat)
    requires k < MAXRCDS
    ensures ToStart(list, 0) == []
    ensures ToStart(list, k + 1) == ToStart(list, k) + if k != MAXKDS && list[k].asked == AskOn
                                                       then [Method(k, Param(k, list[k].param))] else []
  {
  }

  // The next place of a request that is filled in part
  lemma FillsNext(ms: seq<Method>, m: Method)
    requires |ms| < NUM_KDRCDS
    ensures (ms + Cleared(NUM_KDRCDS - |ms|))[|ms| := m] == (ms + [m]) + Cleared(NUM_KDRCDS - |ms + [m]|)
  {
  }

  class Switcher {
    const list: array<Entry>              // name_list
    const daemon: CsaDaemon
    var dir: map<string, int>             // file names, and the file each one stands for

    ghost predicate Valid()
      reads this, daemon
    {
      list.Length == NUM_NAMES && daemon.Valid()
    }

    constructor (daemon: CsaDaemon, dir: map<string, int>)
      requires daemon.Valid()
      ensures Valid() && this.daemon == daemon && this.dir == dir && list[..] == Unset() && fresh(list)
    {
      this.daemon, this.dir := daemon, dir;
      list := new Entry[NUM_NAMES](_ => Entry(NotSet, 0));
    }

    // ---- The name list ----

    method ParseNameList(names: string, asked: Asked) returns (ok: bool)
      requires Valid()
      modifies list
      ensures ok <==> Indices(GetOptLst.Parse(names)).Some?
      ensures ok ==> list[..] == Ask(old(list[..]), Indices(GetOptLst.Parse(names)).value, asked)
    {
      hide CheckName, Indices, Ask;
      var argv := GetOptLst.Parse(names);
      ok := true;
      var ind := 0;
      NothingNamed(argv[..0], list[..], asked);
      while ind < |argv|
        invariant 0 <= ind <= |argv|
        invariant Indices(argv[..ind]).Some?
        invariant list[..] == Ask(old(list[..]), Indices(argv[..ind]).value, asked)
      {
        var indx := CheckName(argv[ind], 0);
        if indx < 0 {
          UnknownName(argv, ind);
          return false;
        }
        OneNamed(argv, ind, old(list[..]), asked);
        list[indx] := list[indx].(asked := asked);
        ind := ind + 1;
      }
      assert argv[..ind] == argv;
    }

    method GetConfig(config: Conf) returns (any: bool)
      requires Valid()
      modifies list
      ensures any == AnyTaken(config)
      ensures any ==> list[..] == Configured(old(list[..]), config)
    {
      any := false;
      for i := 0 to MAXRCDS
        invariant any == exists k :: 0 <= k < i && Takes(config, k)
        invariant forall k :: 0 <= k < i ==> list[k] == Configured(old(list[..]), config)[k]
        invariant forall k :: i <= k < NUM_NAMES ==> list[k] == old(list[k])
      {
        if Active(i) && config[i].IsOn? {
          var bad := false;
          if IsThreshold(i) {
            if config[i].threshold == None || config[i].threshold.value < 0 {
              bad := true;
            } else {
              list[i] := list[i].(param := config[i].threshold.value);
            }
          }
          if !bad {
            list[i] := list[i].(asked := AskOn);
            any := true;
            assert Takes(config, i);
          }
        }
      }
    }

    // Can't have the linked records or thresholds without the base record.
    method RequireBase(csaOn: bool)
      requires Valid()
      modifies list
      ensures list[..] == WithBase(old(list[..]), csaOn)
    {
      assert Linked(RCD_MEM) && Linked(RCD_IO) && Linked(RCD_DELAY) && Linked(THD_MEM) && Linked(THD_TIME);
      if (list[RCD_MEM].asked == AskOn || list[RCD_IO].asked == AskOn || list[RCD_DELAY].asked == AskOn
          || list[THD_MEM].asked == AskOn || list[THD_TIME].asked == AskOn) && !csaOn {
        list[KERN_CSA] := list[KERN_CSA].(asked := AskOn);
      }
    }

    // Fill the methods of a start request.
    method Collect(path: Path) returns (req: Request)
      requires Valid()
      ensures req == Message(path, ToStart(list[..], MAXRCDS))
    {
      hide Cleared, ToStart;
      var filled: seq<Method> := Cleared(NUM_KDRCDS);
      var j := 0;
      ToStartStep(list[..], 0);
      assert filled == ToStart(list[..], 0) + Cleared(NUM_KDRCDS);
      for i := 0 to MAXRCDS
        invariant j == |ToStart(list[..], i)| && |filled| == NUM_KDRCDS
        invariant filled == ToStart(list[..], i) + Cleared(NUM_KDRCDS - j)
      {
        ToStartStep(list[..], i);
        if i != MAXKDS && list[i].asked == AskOn {
          assert |ToStart(list[..], i + 1)| <= NUM_KDRCDS;
          FillsNext(ToStart(list[..], i), Method(i, Param(i, list[i].param)));
          filled := filled[j := Method(i, Param(i, list[i].param))];
          j := j + 1;
        }
      }
      req := Request(j, path, filled);
    }

    method CollectStop() returns (req: Request)
      requires Valid()
      ensures req == Message(NoPath, ToStop(list[..], MAXRCDS))
    {
      hide Cleared, ToStop;
      var ids: seq<Method> := Cleared(NUM_KDRCDS);
      var j := 0;
      ToStopStep(list[..], 0);
      assert ids == ToStop(list[..], 0) + Cleared(NUM_KDRCDS);
      for i := 0 to MAXRCDS
        invariant j == |ToStop(list[..], i)| && |ids| == NUM_KDRCDS
        invariant ids == ToStop(list[..], i) + Cleared(NUM_KDRCDS - j)
      {
        ToStopStep(list[..], i);
        if i != MAXKDS && list[i].asked == AskOff {
          assert |ToStop(list[..], i + 1)| <= NUM_KDRCDS;
          FillsNext(ToStop(list[..], i), Method(i, 0));
          ids := ids[j := Method(i, 0)];
          j := j + 1;
        }
      }
      req := Request(j, NoPath, ids);
    }

    // ---- Commands ----

    // csaswitch -c off
    method DoOff(names: string)
      requires Valid() && list[..] == Unset()
      modifies list, daemon`sys, daemon`closed, daemon.dmd, daemon.rcd
      ensures daemon.View() == Obey(old(daemon.View()), Off(names))
      ensures OffEffects(old(daemon.View()), names, daemon.View())
    {
      hide Indices, ToStop, Message, StopStep, Mask, Ask, OffEffects;
      OffDoesAll(daemon.View(), names);
      var ok := ParseNameList(names, AskOff);
      if !ok {
        return;
      }
      ghost var asked := list[..];
      if list[KERN_CSA].asked == AskOff {
        for i := RCD_MEM to THD_TIME + 1
          invariant forall k :: RCD_MEM <= k < i ==> list[k] == asked[k].(asked := AskOff)
          invariant forall k :: 0 <= k < NUM_NAMES && !(RCD_MEM <= k < i) ==> list[k] == asked[k]
          invariant daemon.View() == old(daemon.View())
        {
          list[i] := list[i].(asked := AskOff);
        }
      }
      assert list[..] == WithLinked(asked);
      var req := CollectStop();
      var error := daemon.DoStop(req);
    }

    method CheckThreshold(id: int, named: bool, given: Option<int>) returns (value: Option<int>)
      requires Valid() && IsThreshold(id)
      ensures forall names: Option<string> :: names.Some? == named ==> value == Threshold(list[..], id, names, given)
    {
      if list[id].asked == AskOn && given == None {
        return None;
      }
      value := Some(0);
      if given.Some? && (list[id].asked == AskOn || !named) {
        value := if given.value < 0 then None else Some(given.value);
      }
    }

    // Names and thresholds of the command line
    method ReadOptions(names: Option<string>, mem: Option<int>, time: Option<int>) returns (ok: bool, m: int, t: int)
      requires Valid() && list[..] == Unset()
      modifies list
      ensures var l := AskedFor(names, AskOn);
              ok == (l.Some? && Threshold(l.value, THD_MEM, names, mem).Some? && Threshold(l.value, THD_TIME, names, time).Some?)
      ensures var l := AskedFor(names, AskOn);
              ok ==> list[..] == l.value && Some(m) == Threshold(l.value, THD_MEM, names, mem)
                     && Some(t) == Threshold(l.value, THD_TIME, names, time)
    {
      hide Indices, Ask, Threshold;
      ok, m, t := false, 0, 0;
      if names.Some? {
        var good := ParseNameList(names.value, AskOn);
        if !good {
          return;
        }
      }
      var memThreshold := CheckThreshold(THD_MEM, names.Some?, mem);
      var timeThreshold := CheckThreshold(THD_TIME, names.Some?, time);
      if memThreshold.Some? && timeThreshold.Some? {
        ok, m, t := true, memThreshold.value, timeThreshold.value;
      }
    }

    // The methods to start, from csa.conf when so asked
    method Prepare(useConfig: bool, config: Conf, csaOn: bool) returns (ok: bool)
      requires Valid()
      modifies list
      ensures ok == StartList(old(list[..]), useConfig, config, csaOn).Some?
      ensures ok ==> list[..] == StartList(old(list[..]), useConfig, config, csaOn).value
    {
      hide AnyTaken, Configured, WithBase;
      if useConfig {
        var any := GetConfig(config);
        if !any {
          return false;
        }
      }
      RequireBase(csaOn);
      ok := true;
    }

    method SetThresholds(m: int, t: int)
      requires Valid()
      modifies list
      ensures list[..] == Override(old(list[..]), m, t)
    {
      if m > 0 {
        list[THD_MEM] := list[THD_MEM].(param := m);
      }
      if t > 0 {
        list[THD_TIME] := list[THD_TIME].(param := t);
      }
    }

    // csaswitch -c on: the command line, then do_start
    method DoOn(names: Option<string>, mem: Option<int>, time: Option<int>, pathGiven: bool, config: Conf, fileOk: bool, file: Path)
      returns (retval: int)
      requires Valid() && list[..] == Unset()
      modifies list, daemon`sys, daemon`closed, daemon.dmd, daemon.rcd
      ensures daemon.View() == Obey(old(daemon.View()), On(names, mem, time, pathGiven, config, fileOk, file))
      ensures retval == 0 ==> forall id :: MethodId(id) ==>
                OnEffect(old(daemon.View()).tab, On(names, mem, time, pathGiven, config, fileOk, file), daemon.View().tab, id)
      ensures retval != 0 ==> daemon.View() == old(daemon.View())
    {
      hide AskedFor, Threshold, StartList, Override, ToStart, Message, Step, AnyOn, Obey, Sends, OnEffect, MethodId;
      retval := -1;
      ghost var before, c := daemon.View(), On(names, mem, time, pathGiven, config, fileOk, file);
      OnSendsIf(before, c);
      var ok, m, t := ReadOptions(names, mem, time);
      if !ok {
        return;
      }
      var ready := Prepare(names == None, config, daemon.dmd[KERN_CSA].on);
      if !ready {
        return;
      }
      retval := SendStart(m, t, pathGiven, fileOk, file);
      if retval == 0 {
        OnDoesAll(before, c);
      }
    }

    // The end of do_start: without a file of its own the command needs one the daemon has open.
    method SendStart(m: int, t: int, pathGiven: bool, fileOk: bool, file: Path) returns (retval: int)
      requires Valid()
      modifies list, daemon`sys, daemon`closed, daemon.dmd, daemon.rcd
      ensures var v, ms := old(daemon.View()), ToStart(Override(old(list[..]), m, t), MAXRCDS);
              daemon.View() == if !pathGiven && AnyOn(v.tab.dmd) then Step(v, Start(Message(NoPath, ms)))
                               else if !fileOk then v
                               else Step(v, Start(Message(file, ms)))
      ensures retval == 0 ==>
                var path := if !pathGiven && AnyOn(old(daemon.View()).tab.dmd) then NoPath else file;
                (path == Regular || (path == NoPath && old(daemon.View()).sys.Some?))
                && ((pathGiven || !AnyOn(old(daemon.View()).tab.dmd)) ==> fileOk)
      ensures retval != 0 ==> daemon.View() == old(daemon.View())
    {
      hide Override, ToStart, Message, StartStep, AnyOn, MethodId;
      retval := -1;
      SetThresholds(m, t);
      var path := file;
      var i := MethodsOn();
      if !pathGiven && i < MAXKDS {
        path := NoPath;
      } else if !fileOk {
        return;
      }
      var req := Collect(path);
      StartAnswer(daemon.View(), path, ToStart(list[..], MAXRCDS));
      var error := daemon.DoStart(req);
      retval := if error == Success then 0 else -1;
    }

    // The first kernel or daemon method that is on
    method MethodsOn() returns (i: nat)
      requires Valid()
      ensures i <= MAXKDS
      ensures i < MAXKDS <==> AnyOn(daemon.View().tab.dmd)
      ensures i < MAXKDS ==> i == FirstOn(daemon.View().tab.dmd)
    {
      i := 0;
      while i < MAXKDS && !daemon.dmd[i].on
        invariant i <= MAXKDS && forall k :: 0 <= k < i ==> !daemon.dmd[k].on
      {
        i := i + 1;
      }
    }

    // ---- Switching files ----

    // move_file: link path to the first free number and take its old name away; None when there is no such file
    method MoveFile(path: string) returns (moved: Option<string>)
      modifies this`dir
      ensures path !in old(dir) ==> moved == None && dir == old(dir)
      ensures path in old(dir) ==> moved.Some? && moved.value !in old(dir)
                                   && dir == old(dir)[moved.value := old(dir)[path]] - {path}
    {
      var ind := 1;
      ghost var seen: set<string> := {};
      while Numbered(path, ind) in dir
        invariant dir == old(dir) && ind > 0 && seen <= dir.Keys && |seen| == ind - 1
        invariant forall s :: s in seen ==> exists k: nat :: k < ind && s == Numbered(path, k)
        decreases |dir.Keys| - ind
      {
        if Numbered(path, ind) in seen {
          if k: nat :| k < ind && Numbered(path, ind) == Numbered(path, k) {
            NumberedDiffer(path, k, ind);
          }
        }
        seen := seen + {Numbered(path, ind)};
        SubsetSize(seen, dir.Keys);
        ind := ind + 1;
      }
      if path !in dir {
        return None;
      }
      dir := dir[Numbered(path, ind) := dir[path]] - {path};
      moved := Some(Numbered(path, ind));
    }

    // do_file: the file is created when there is none, unless that fails
    method DoFile(path: string, ok: bool, made: bool, file: int) returns (success: bool)
      modifies this`dir
      ensures dir == if path !in old(dir) && made then old(dir)[path := file] else old(dir)
      ensures success == (ok && (path in old(dir) || made))
    {
      if path !in dir && made {
        dir := dir[path := file];
      }
      success := ok && path in dir;
    }

    // What do_switch leaves of the file names: on success the old file under a free number and a new one in its place, on
    // failure everything as it was, but for a new file that nothing was moved away for.
    ghost predicate DirSwitched(before: map<string, int>, after: map<string, int>, path: string, moved: Option<string>,
                                newFile: int, done: bool)
    {
      match moved
      case Some(aside) =>
        && path in before && aside !in before
        && after == if done then before[aside := before[path]][path := newFile] else before
      case None =>
        && (done ==> path !in before && after == before[path := newFile])
        && (!done ==> after == before || (path !in before && after == before[path := newFile]))
    }

    // Ask the daemon to start on the new file: with the method that is on, or with everything configured.
    method SendSwitch(i: nat, file: Path) returns (retval: int)
      requires Valid() && i <= MAXKDS
      modifies daemon`sys, daemon`closed, daemon.dmd, daemon.rcd
      ensures daemon.View() == Step(old(daemon.View()), Start(Message(file,
                if i < MAXKDS then [Method(i, Param(i, old(daemon.View()).tab.dmd[i].param))] else ToStart(list[..], MAXRCDS))))
      ensures retval == 0 || retval == -1
    {
      hide Message, ToStart, StartStep, Param;
      var req;
      if i < MAXKDS {
        req := Message(file, [Method(i, Param(i, daemon.dmd[i].param))]);
      } else {
        req := Collect(file);
      }
      var error := daemon.DoStart(req);
      retval := if error == Success then 0 else -1;
    }

    // The directory part of do_switch, after the old file was or was not moved aside
    method Finish(i: nat, path: string, moved: Option<string>, ok: bool, made: bool, newFile: int, file: Path,
                  ghost before: map<string, int>)
      returns (retval: int, sent: bool)
      requires Valid() && i <= MAXKDS
      requires moved == None ==> path !in before && dir == before
      requires moved.Some? ==> path in before && moved.value !in before && dir == before[moved.value := before[path]] - {path}
      modifies this`dir, daemon`sys, daemon`closed, daemon.dmd, daemon.rcd
      ensures sent ==> daemon.View() == Step(old(daemon.View()), Start(Message(file,
                if i < MAXKDS then [Method(i, Param(i, old(daemon.View()).tab.dmd[i].param))] else ToStart(list[..], MAXRCDS))))
      ensures !sent ==> daemon.View() == old(daemon.View()) && retval == -1
      ensures (retval == 0 || retval == -1) && DirSwitched(before, dir, path, moved, newFile, retval == 0)
    {
      hide Message, ToStart, Step, Param;
      retval := -1;
      sent := DoFile(path, ok, made, newFile);
      if sent {
        retval := SendSwitch(i, file);
      }
      if retval == -1 && moved.Some? {
        Restore(path, moved.value);
        assert dir == before;
      }
    }

    // do_switch; `current` is the path the daemon reports, `configured` that of csa.conf
    method DoSwitch(names: Option<string>, mem: Option<int>, time: Option<int>, config: Conf, current: string,
                    configured: string, ok: bool, made: bool, newFile: int, file: Path)
      returns (retval: int, moved: Option<string>, sent: bool)
      requires Valid() && list[..] == Unset()
      modifies this`dir, list, daemon`sys, daemon`closed, daemon.dmd, daemon.rcd
      ensures daemon.View() == Obey(old(daemon.View()), Switch(names, mem, time, config, sent, file))
      ensures (retval == 0 ==> sent) && (retval == 0 || retval == -1)
      ensures var path := if AnyOn(old(daemon.View()).tab.dmd) then current else configured;
              DirSwitched(old(dir), dir, path, moved, newFile, retval == 0)
    {
      hide AskedFor, Threshold, StartList, ToStart, Message, Step, AnyOn, Param, Obey, Sends;
      retval, moved, sent := -1, None, false;
      SwitchSends(daemon.View(), names, mem, time, config, false, file);
      SwitchSends(daemon.View(), names, mem, time, config, true, file);
      var good, m, t := ReadOptions(names, mem, time);
      if !good {
        return;
      }
      var i := MethodsOn();
      var path := if i < MAXKDS then current else configured;
      if i < MAXKDS {
        moved := MoveFile(path);
        if moved == None {
          return;
        }
      } else {
        var ready := Prepare(true, config, false);
        if !ready {
          return;
        }
        if path in dir {
          moved := MoveFile(path);
        }
      }
      retval, sent := Finish(i, path, moved, ok, made, newFile, file, old(dir));
    }

    // Put the file back under its old name.
    method Restore(path: string, moved: string)
      requires moved in dir && moved != path
      modifies this`dir
      ensures dir == old(dir)[path := old(dir)[moved]] - {moved}
    {
      if path in dir {
        dir := dir - {path};
      }
      dir := dir[path := dir[moved]];
      dir := dir - {moved};
    }
  }

  // What becomes of an on command, by cases
  lemma OnSendsIf(s: State, c: Command)
    requires ValidState(s) && c.On?
    ensures var l := AskedFor(c.names, AskOn);
            var good := l.Some? && Threshold(l.value, THD_MEM, c.names, c.mem).Some? && Threshold(l.value, THD_TIME, c.names, c.time).Some?;
            if !good || StartList(l.value, c.names == None, c.config, s.tab.dmd[KERN_CSA].on) == None then Obey(s, c) == s
            else
              var m, t := Threshold(l.value, THD_MEM, c.names, c.mem).value, Threshold(l.value, THD_TIME, c.names, c.time).value;
              var ms := ToStart(Override(StartList(l.value, c.names == None, c.config, s.tab.dmd[KERN_CSA].on).value, m, t), MAXRCDS);
              if !c.pathGiven && AnyOn(s.tab.dmd) then Sends(s, c).Some? && Obey(s, c) == Step(s, Start(Message(NoPath, ms)))
              else if !c.fileOk then Obey(s, c) == s
              else Sends(s, c).Some? && Obey(s, c) == Step(s, Start(Message(c.file, ms)))
  {
    hide AskedFor, Threshold, StartList, Override, ToStart, Message, Step, AnyOn;
  }

  lemma NothingNamed(names: seq<string>, list: seq<Entry>, asked: Asked)
    requires names == [] && |list| == NUM_NAMES
    ensures Indices(names) == Some([]) && list == Ask(list, [], asked)
  {
  }

  // One name more is known: its method is marked as well.
  lemma OneNamed(argv: seq<string>, k: nat, list: NameList, asked: Asked)
    requires k < |argv| && Indices(argv[..k]).Some? && CheckName(argv[k], 0) >= 0
    ensures var id := CheckName(argv[k], 0);
            var before := Ask(list, Indices(argv[..k]).value, asked);
            && id < NUM_NAMES && Indices(argv[..k + 1]).Some?
            && Ask(list, Indices(argv[..k + 1]).value, asked) == before[id := before[id].(asked := asked)]
  {
    hide CheckName;
    assert argv[..k + 1][..k] == argv[..k];
    var id := CheckName(argv[k], 0);
    assert Indices(argv[..k + 1]) == Some(Indices(argv[..k]).value + [id]);
  }

  // What becomes of a switch command, by cases
  lemma SwitchSends(s: State, names: Option<string>, mem: Option<int>, time: Option<int>, config: Conf, fileOk: bool, file: Path)
    requires ValidState(s)
    ensures var l := AskedFor(names, AskOn);
            var good := l.Some? && Threshold(l.value, THD_MEM, names, mem).Some? && Threshold(l.value, THD_TIME, names, time).Some?;
            var t := Obey(s, Switch(names, mem, time, config, fileOk, file));
            if !good || !fileOk then t == s
            else if AnyOn(s.tab.dmd) then
              var i := FirstOn(s.tab.dmd);
              t == Step(s, Start(Message(file, [Method(i, Param(i, s.tab.dmd[i].param))])))
            else
              var list := StartList(l.value, true, config, false);
              t == if list.Some? then Step(s, Start(Message(file, ToStart(list.value, MAXRCDS)))) else s
  {
    hide AskedFor, Threshold, StartList, ToStart, Message, Step, AnyOn, Param;
  }

  lemma {:induction false} UnknownName(argv: seq<string>, k: nat)
    requires k < |argv| && CheckName(argv[k], 0) < 0
    ensures Indices(argv) == None
    decreases |argv|
  {
    hide CheckName;
    if k < |argv| - 1 {
      UnknownName(argv[..|argv| - 1], k);
    }
  }
}
