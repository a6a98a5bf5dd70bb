/** The commands built on the tag store: push (stamp every selected tag as a
    git tag, then push all tags), the interactive add loop, and the thin
    init/add/list/rm handlers. git is seen only through the runs it is asked
    to make and whether each one succeeded. */
module Workflow {
  import opened Text
  import opened TagStore

  /** One subprocess run: its argument vector, program first, and whether it
      exited successfully. */
  datatype Run = Run(argv: seq<string>, succeeded: bool)

  /** The git tag stamped for a store tag at push time. */
  function ReleaseName(stamp: string, tag: string): (r: string)
    ensures |r| == 9 + |stamp| + |tag|
    ensures r[..8] == "release-"
    ensures r[8..8 + |stamp|] == stamp
    ensures r[|r| - |tag| - 1] == '-' && r[|r| - |tag|..] == tag
  {
    "release-" + stamp + "-" + tag
  }

  function TagCommand(name: string): seq<string> {
    ["git", "tag", name]
  }

  const PushCommand: seq<string> := ["git", "push", "origin", "--tags"]

  /** The runs pushTags makes for tags at the given timestamp, where
      succeeds(k) says whether the k-th run succeeds: one `git tag` per tag,
      in order, all with the same timestamp, whatever their outcome; then
      exactly one push of all tags. */
  ghost predicate IsPushTrace(trace: seq<Run>, tags: seq<string>, stamp: string, succeeds: nat -> bool) {
    && |trace| == |tags| + 1
    && (forall i :: 0 <= i < |tags| ==> trace[i] == Run(TagCommand(ReleaseName(stamp, tags[i])), succeeds(i)))
    && trace[|tags|] == Run(PushCommand, succeeds(|tags|))
  }

  /** pushTags: the timestamp is taken once; a failed `git tag` is reported
      and the loop goes on; the final push is attempted in every case. */
  method PushTags(tags: seq<string>, stamp: string, succeeds: nat -> bool) returns (trace: seq<Run>)
    ensures IsPushTrace(trace, tags, stamp, succeeds)
  {
    trace := [];
    for i := 0 to |tags|
      invariant |trace| == i
      invariant forall k :: 0 <= k < i ==> trace[k] == Run(TagCommand(ReleaseName(stamp, tags[k])), succeeds(k))
    {
      var gitTag := ReleaseName(stamp, tags[i]);
      var ok := succeeds(|trace|);
      trace := trace + [Run(TagCommand(gitTag), ok)];
    }
    trace := trace + [Run(PushCommand, succeeds(|trace|))];
  }

  /** A push trace is determined by its inputs. */
  lemma PushTraceUnique(t1: seq<Run>, t2: seq<Run>, tags: seq<string>, stamp: string, succeeds: nat -> bool)
    requires IsPushTrace(t1, tags, stamp, succeeds) && IsPushTrace(t2, tags, stamp, succeeds)
    ensures t1 == t2
  {
    assert forall i :: 0 <= i < |t1| ==> t1[i] == t2[i];
  }

  /** The push is the last run and the only one. */
  lemma OnePushLast(trace: seq<Run>, tags: seq<string>, stamp: string, succeeds: nat -> bool)
    requires IsPushTrace(trace, tags, stamp, succeeds)
    ensures forall i :: 0 <= i < |trace| ==> (trace[i].argv == PushCommand <==> i == |tags|)
  {
    forall i | 0 <= i < |tags|
      ensures trace[i].argv != PushCommand
    {
      assert |trace[i].argv| == 3;
    }
  }

  /** Failures do not change what is run: with any two outcome oracles the
      same commands are issued in the same order. */
  lemma FailuresDoNotStop(t1: seq<Run>, t2: seq<Run>, tags: seq<string>, stamp: string, s1: nat -> bool, s2: nat -> bool)
    requires IsPushTrace(t1, tags, stamp, s1) && IsPushTrace(t2, tags, stamp, s2)
    ensures |t1| == |t2|
    ensures forall i :: 0 <= i < |t1| ==> t1[i].argv == t2[i].argv
  {
  }

  /** Under one timestamp length, release names tell apart both the
      timestamp and the tag. */
  lemma ReleaseNameInjective(s1: string, t1: string, s2: string, t2: string)
    requires |s1| == |s2|
    ensures ReleaseName(s1, t1) == ReleaseName(s2, t2) <==> s1 == s2 && t1 == t2
  {
    if ReleaseName(s1, t1) == ReleaseName(s2, t2) {
      var n := ReleaseName(s1, t1);
      assert s1 == n[8..8 + |s1|];
      assert s2 == n[8..8 + |s2|];
      assert t1 == n[9 + |s1|..];
      assert t2 == n[9 + |s2|..];
    }
  }

  /** What runPush reports; only Pushed carries runs, so every other outcome
      makes no git invocation. */
  datatype PushReport =
    | ReadTagsFailed
    | NoTagsFound
    | TagNotInStore(tag: string)
    | SpecifyTagOrAll
    | Pushed(trace: seq<Run>)

  /** runPush: `--all` takes every stored tag and wins over a positional tag;
      a positional tag must already be in the store; with neither nothing is
      done. */
  method RunPush(store: Store, all: bool, args: seq<string>, stamp: string, succeeds: nat -> bool) returns (r: PushReport)
    ensures (all || args != []) && store.file.Unreadable? ==> r == ReadTagsFailed
    ensures all && ReadTagsOf(store.file) == Tags([]) ==> r == NoTagsFound
    ensures all && ReadTagsOf(store.file).Tags? && ReadTagsOf(store.file).tags != [] ==>
      r.Pushed? && IsPushTrace(r.trace, ReadTagsOf(store.file).tags, stamp, succeeds)
    ensures !all && args != [] && ReadTagsOf(store.file).Tags? && args[0] !in ReadTagsOf(store.file).tags ==>
      r == TagNotInStore(args[0])
    ensures !all && args != [] && ReadTagsOf(store.file).Tags? && args[0] in ReadTagsOf(store.file).tags ==>
      r.Pushed? && IsPushTrace(r.trace, [args[0]], stamp, succeeds)
    ensures !all && args == [] ==> r == SpecifyTagOrAll
  {
    if all {
      var read := store.ReadTags();
      if read.ReadFailed? {
        return ReadTagsFailed;
      }
      if |read.tags| == 0 {
        return NoTagsFound;
      }
      var trace := PushTags(read.tags, stamp, succeeds);
      return Pushed(trace);
    } else if |args| > 0 {
      var tag := args[0];
      var read := store.ReadTags();
      if read.ReadFailed? {
        return ReadTagsFailed;
      }
      var tags := read.tags;
      var found := false;
      for i := 0 to |tags|
        invariant found <==> exists k :: 0 <= k < i && tags[k] == tag
      {
        if tags[i] == tag {
          found := true;
          break;
        }
      }
      if !found {
        assert forall k :: 0 <= k < |tags| ==> tags[k] != tag;
        return TagNotInStore(tag);
      }
      var trace := PushTags([tag], stamp, succeeds);
      return Pushed(trace);
    } else {
      return SpecifyTagOrAll;
    }
  }

  /** A line read from standard input, without its newline delimiter. */
  type InputLine = s: string | '\n' !in s

  /** How an interactive session ends: "exit" was typed, the user did not
      answer y/yes, or input ran out (a read error). */
  datatype SessionEnd = ExitTyped | Declined | InputEnded

  /** The tags an interactive session tries to add, in order, and how it ends. */
  datatype Session = Session(tags: seq<string>, end: SessionEnd)

  /** The answer to "continue adding?" lets the loop go on. */
  predicate IsYes(answer: string) {
    var a := Trim(ToLower(answer));
    a == "y" || a == "yes"
  }

  /** interactiveAddTag over a sequence of input lines: "exit" stops, an
      empty line is rejected and the prompt repeats, any other line is added
      and the loop continues only on a y/yes answer. */
  function SessionOf(input: seq<InputLine>): (r: Session)
    ensures |r.tags| <= |input|
    ensures forall t :: t in r.tags ==> exists j :: 0 <= j < |input| && Trim(input[j]) == t
    ensures r.end == ExitTyped ==> exists j :: 0 <= j < |input| && Trim(input[j]) == "exit"
    decreases |input|
  {
    if input == [] then Session([], InputEnded)
    else
      var line := Trim(input[0]);
      if line == "exit" then Session([], ExitTyped)
      else if line == "" then SessionOf(input[1..])
      else if |input| == 1 then Session([line], InputEnded)
      else if !IsYes(input[1]) then Session([line], Declined)
      else
        var rest := SessionOf(input[2..]);
        Session([line] + rest.tags, rest.end)
  }

  /** Every tag a session tries to add is a well-formed tag other than "exit". */
  lemma {:induction false} SessionTags(input: seq<InputLine>)
    ensures forall j :: 0 <= j < |SessionOf(input).tags| ==> IsTag(SessionOf(input).tags[j]) && SessionOf(input).tags[j] != "exit"
    decreases |input|
  {
    if input != [] {
      TrimOneLine(input[0]);
      var line := Trim(input[0]);
      if line != "exit" && line == "" {
        SessionTags(input[1..]);
      } else if line != "exit" && |input| > 1 && IsYes(input[1]) {
        SessionTags(input[2..]);
      }
    }
  }

  /** Once a session has ended by "exit" or by a declined answer, further
      input is never read. */
  lemma {:induction false} SessionStopsReading(input: seq<InputLine>, more: seq<InputLine>)
    requires SessionOf(input).end != InputEnded
    ensures SessionOf(input + more) == SessionOf(input)
    decreases |input|
  {
    var all := input + more;
    assert input != [];
    assert all[0] == input[0];
    var line := Trim(input[0]);
    if line == "exit" {
      assert SessionOf(all) == Session([], ExitTyped);
    } else if line == "" {
      DropAppend(input, more, 1);
      SessionStopsReading(input[1..], more);
      assert SessionOf(all) == SessionOf(all[1..]);
    } else {
      assert |input| > 1;
      assert all[1] == input[1];
      if IsYes(input[1]) {
        DropAppend(input, more, 2);
        SessionStopsReading(input[2..], more);
        assert SessionOf(all) == Session([line] + SessionOf(all[2..]).tags, SessionOf(all[2..]).end);
      } else {
        assert SessionOf(all) == Session([line], Declined);
      }
    }
  }

  /** The input of a user who enters each line of ls and answers the
      "continue adding?" prompt after it with the matching answer. */
  function Interleave(ls: seq<InputLine>, answers: seq<InputLine>): seq<InputLine>
    requires |ls| == |answers|
  {
    if ls == [] then [] else [ls[0], answers[0]] + Interleave(ls[1..], answers[1..])
  }

  /** The trimmed form of each line, in order. */
  function TrimAll(ls: seq<string>): seq<string> {
    if ls == [] then [] else [Trim(ls[0])] + TrimAll(ls[1..])
  }

  /** A y/yes answer keeps the loop going: when every entered line is a tag
      other than "exit" and every answer is yes, the session tries each
      trimmed line, in order, and ends only when input runs out. */
  lemma {:induction false} SessionTriesEveryTag(ls: seq<InputLine>, answers: seq<InputLine>)
    requires |ls| == |answers|
    requires forall j :: 0 <= j < |ls| ==> Trim(ls[j]) != "" && Trim(ls[j]) != "exit"
    requires forall j :: 0 <= j < |answers| ==> IsYes(answers[j])
    ensures SessionOf(Interleave(ls, answers)) == Session(TrimAll(ls), InputEnded)
    decreases |ls|
  {
    if ls != [] {
      var input := Interleave(ls, answers);
      var rest := Interleave(ls[1..], answers[1..]);
      assert input == [ls[0], answers[0]] + rest;
      assert input[0] == ls[0] && input[1] == answers[0] && input[2..] == rest;
      var line := Trim(ls[0]);
      assert line != "exit" && line != "" && IsYes(input[1]);
      assert SessionOf(input) == Session([line] + SessionOf(rest).tags, SessionOf(rest).end);
      SessionTriesEveryTag(ls[1..], answers[1..]);
    }
  }

  /** The unfolding of the session at position pos, as the loop reads it. */
  lemma SessionStep(input: seq<InputLine>, pos: nat)
    requires pos < |input|
    ensures Trim(input[pos]) == "exit" ==> SessionOf(input[pos..]) == Session([], ExitTyped)
    ensures Trim(input[pos]) != "exit" && Trim(input[pos]) == "" ==> SessionOf(input[pos..]) == SessionOf(input[pos + 1..])
    ensures Trim(input[pos]) != "exit" && Trim(input[pos]) != "" && pos + 1 == |input| ==>
      SessionOf(input[pos..]) == Session([Trim(input[pos])], InputEnded)
    ensures Trim(input[pos]) != "exit" && Trim(input[pos]) != "" && pos + 1 < |input| && !IsYes(input[pos + 1]) ==>
      SessionOf(input[pos..]) == Session([Trim(input[pos])], Declined)
    ensures Trim(input[pos]) != "exit" && Trim(input[pos]) != "" && pos + 1 < |input| && IsYes(input[pos + 1]) ==>
      SessionOf(input[pos..]) == Session([Trim(input[pos])] + SessionOf(input[pos + 2..]).tags, SessionOf(input[pos + 2..]).end)
  {
    assert input[pos..][0] == input[pos];
    assert input[pos..][1..] == input[pos + 1..];
    if pos + 1 < |input| {
      assert input[pos..][1] == input[pos + 1];
      assert input[pos..][2..] == input[pos + 2..];
    }
  }

  /** One add attempt of an interactive session and its outcome. */
  datatype Attempt = Attempt(tag: string, outcome: Outcome)

  /** The attempts of adding tags one after another, and the file afterwards. */
  function Replay(f: FileState, writable: bool, tags: seq<string>): (seq<Attempt>, FileState) {
    if tags == [] then ([], f)
    else
      var prev := Replay(f, writable, tags[..|tags| - 1]);
      var step := AddEffect(prev.1, writable, tags[|tags| - 1]);
      (prev.0 + [Attempt(tags[|tags| - 1], step.0)], step.1)
  }

  /** The tags of the attempts that succeeded, in order. */
  function Added(log: seq<Attempt>): seq<string> {
    if log == [] then []
    else Added(log[..|log| - 1]) + (if log[|log| - 1].outcome == Ok then [log[|log| - 1].tag] else [])
  }

  lemma ReplaySnoc(f: FileState, writable: bool, tags: seq<string>, t: string)
    ensures Replay(f, writable, tags + [t]) ==
      var prev := Replay(f, writable, tags);
      var step := AddEffect(prev.1, writable, t);
      (prev.0 + [Attempt(t, step.0)], step.1)
  {
    assert (tags + [t])[..|tags|] == tags;
  }

  /** Adding well-formed tags one after another to a readable store leaves
      the old tags followed by exactly those that were added, and keeps a
      duplicate-free store duplicate-free. */
  lemma {:induction false} ReplayGrowsStore(f: FileState, writable: bool, tags: seq<string>)
    requires forall j :: 0 <= j < |tags| ==> IsTag(tags[j])
    requires ReadTagsOf(f).Tags?
    ensures ReadTagsOf(Replay(f, writable, tags).1) == Tags(ReadTagsOf(f).tags + Added(Replay(f, writable, tags).0))
    ensures NoDuplicates(ReadTagsOf(f).tags) ==> NoDuplicates(ReadTagsOf(Replay(f, writable, tags).1).tags)
  {
    if tags == [] {
      assert ReadTagsOf(f).tags + [] == ReadTagsOf(f).tags;
    } else {
      var init := tags[..|tags| - 1];
      var t := tags[|tags| - 1];
      assert init + [t] == tags;
      ReplayGrowsStore(f, writable, init);
      var prev := Replay(f, writable, init);
      var step := AddEffect(prev.1, writable, t);
      ReplaySnoc(f, writable, init, t);
      var log := prev.0 + [Attempt(t, step.0)];
      assert log[..|log| - 1] == prev.0;
      if step.0 == Ok {
        AddAppends(prev.1, writable, t);
        Assoc(ReadTagsOf(f).tags, Added(prev.0), [t]);
      } else {
        assert Added(prev.0) + [] == Added(prev.0);
      }
    }
  }

  /** Adding distinct well-formed tags that are not yet stored to a readable,
      writable store: every add succeeds, and the store then lists the old
      tags followed by exactly those tags, in the order they were added. */
  lemma {:induction false} ReplayAddsAll(f: FileState, tags: seq<string>)
    requires forall j :: 0 <= j < |tags| ==> IsTag(tags[j])
    requires NoDuplicates(tags)
    requires ReadTagsOf(f).Tags?
    requires forall j :: 0 <= j < |tags| ==> tags[j] !in ReadTagsOf(f).tags
    ensures Added(Replay(f, true, tags).0) == tags
    ensures ReadTagsOf(Replay(f, true, tags).1) == Tags(ReadTagsOf(f).tags + tags)
  {
    if tags == [] {
      assert ReadTagsOf(f).tags + [] == ReadTagsOf(f).tags;
    } else {
      var init := tags[..|tags| - 1];
      var t := tags[|tags| - 1];
      assert init + [t] == tags;
      ReplayAddsAll(f, init);
      var prev := Replay(f, true, init);
      var step := AddEffect(prev.1, true, t);
      ReplaySnoc(f, true, init, t);
      var log := prev.0 + [Attempt(t, step.0)];
      assert log[..|log| - 1] == prev.0;
      assert t !in ReadTagsOf(f).tags + init;
      AddAppends(prev.1, true, t);
      Assoc(ReadTagsOf(f).tags, init, [t]);
    }
  }

  /** interactiveAddTag: a prompt loop that adds each entered tag to the
      store through addTag. */
  method InteractiveAddTag(store: Store, input: seq<InputLine>) returns (log: seq<Attempt>, end: SessionEnd)
    modifies store
    ensures end == SessionOf(input).end
    ensures (log, store.file) == Replay(old(store.file), store.writable, SessionOf(input).tags)
  {
    var pos := 0;
    ghost var done: seq<string> := [];
    log := [];
    assert input[0..] == input;
    while true
      invariant pos <= |input|
      invariant done + SessionOf(input[pos..]).tags == SessionOf(input).tags
      invariant SessionOf(input[pos..]).end == SessionOf(input).end
      invariant (log, store.file) == Replay(old(store.file), store.writable, done)
      decreases |input| - pos
    {
      if pos == |input| {
        assert input[pos..] == [];
        assert done + [] == done;
        return log, InputEnded;
      }
      SessionStep(input, pos);
      var line := Trim(input[pos]);
      pos := pos + 1;
      if line == "exit" {
        assert done + [] == done;
        return log, ExitTyped;
      }
      if line == "" {
        continue;
      }
      var r := store.AddTag(line);
      ReplaySnoc(old(store.file), store.writable, done, line);
      log := log + [Attempt(line, r)];
      if pos == |input| {
        return log, InputEnded;
      }
      var answer := Trim(ToLower(input[pos]));
      pos := pos + 1;
      if answer != "y" && answer != "yes" {
        return log, Declined;
      }
      Assoc(done, [line], SessionOf(input[pos..]).tags);
      done := done + [line];
    }
  }

  /** What runList shows. */
  datatype ListReport = ListReadFailed | NoTags | Listed(tags: seq<string>)

  /** runList: every stored tag in store order, or a notice that there are none. */
  method RunList(store: Store) returns (r: ListReport)
    ensures store.file.Unreadable? ==> r == ListReadFailed
    ensures ReadTagsOf(store.file) == Tags([]) ==> r == NoTags
    ensures ReadTagsOf(store.file).Tags? && ReadTagsOf(store.file).tags != [] ==> r == Listed(ReadTagsOf(store.file).tags)
  {
    var read := store.ReadTags();
    if read.ReadFailed? {
      return ListReadFailed;
    }
    if |read.tags| == 0 {
      return NoTags;
    }
    return Listed(read.tags);
  }

  /** What runInit does. */
  datatype InitReport = InitReadFailed | ShowTags(tags: seq<string>) | StartedSession(log: seq<Attempt>, end: SessionEnd)

  /** runInit: an empty or missing store starts the interactive loop; a
      non-empty one is only listed. */
  method RunInit(store: Store, input: seq<InputLine>) returns (r: InitReport)
    modifies store
    ensures old(store.file).Unreadable? ==> r == InitReadFailed && store.file == old(store.file)
    ensures ReadTagsOf(old(store.file)).Tags? && ReadTagsOf(old(store.file)).tags != [] ==>
      r == ShowTags(ReadTagsOf(old(store.file)).tags) && store.file == old(store.file)
    ensures ReadTagsOf(old(store.file)) == Tags([]) ==>
      r.StartedSession? && r.end == SessionOf(input).end &&
      (r.log, store.file) == Replay(old(store.file), store.writable, SessionOf(input).tags)
  {
    var read := store.ReadTags();
    if read.ReadFailed? {
      return InitReadFailed;
    }
    if |read.tags| == 0 {
      var log, end := InteractiveAddTag(store, input);
      return StartedSession(log, end);
    }
    return ShowTags(read.tags);
  }

  /** What runAdd does. */
  datatype AddReport = AddedDirectly(tag: string, outcome: Outcome) | AddedInteractively(log: seq<Attempt>, end: SessionEnd)

  /** runAdd: with an argument, one addTag of exactly that argument (not
      trimmed); without one, the interactive loop. */
  method RunAdd(store: Store, args: seq<string>, input: seq<InputLine>) returns (r: AddReport)
    modifies store
    ensures args != [] ==>
              && r.AddedDirectly? && r.tag == args[0]
              && (r.outcome, store.file) == AddEffect(old(store.file), store.writable, args[0])
    ensures args == [] ==>
              && r.AddedInteractively? && r.end == SessionOf(input).end
              && (r.log, store.file) == Replay(old(store.file), store.writable, SessionOf(input).tags)
  {
    if |args| == 0 {
      var log, end := InteractiveAddTag(store, input);
      return AddedInteractively(log, end);
    }
    var tag := args[0];
    var outcome := store.AddTag(tag);
    return AddedDirectly(tag, outcome);
  }

  /** runRm: the command line guarantees exactly one argument, which is
      removed with removeTag. */
  method RunRm(store: Store, args: seq<string>) returns (r: Outcome)
    requires |args| == 1
    modifies store
    ensures (r, store.file) == RemoveEffect(old(store.file), store.writable, args[0])
  {
    r := store.RemoveTag(args[0]);
  }

  /** Adding v1 and v2 to a missing store, then listing, gives v1 then v2;
      removing v1 from a store holding only v1 leaves it empty. */
  lemma StoreScenario()
    ensures ReadTagsOf(Replay(Missing, true, ["v1", "v2"]).1) == Tags(["v1", "v2"])
    ensures ReadTagsOf(RemoveEffect(Present("v1\n"), true, "v1").1) == Tags([])
  {
    assert IsTag("v1") && IsTag("v2");
    ReplaySnoc(Missing, true, [], "v1");
    assert [] + ["v1"] == ["v1"];
    var r1 := Replay(Missing, true, ["v1"]);
    assert r1.0 == [Attempt("v1", Ok)];
    AddAppends(Missing, true, "v1");
    assert ReadTagsOf(r1.1) == Tags(["v1"]);
    ReplaySnoc(Missing, true, ["v1"], "v2");
    assert ["v1"] + ["v2"] == ["v1", "v2"];
    AddAppends(r1.1, true, "v2");
    OneTag();
    RemoveFilters(Present("v1\n"), true, "v1");
  }

  /** Pushing v1 and v2 at 202401011200 tags release-202401011200-v1 and
      release-202401011200-v2 (the second even when the first fails), then
      pushes once. */
  lemma PushScenario(trace: seq<Run>, succeeds: nat -> bool)
    requires IsPushTrace(trace, ["v1", "v2"], "202401011200", succeeds)
    ensures |trace| == 3
    ensures trace[0].argv == ["git", "tag", "release-202401011200-v1"]
    ensures trace[1].argv == ["git", "tag", "release-202401011200-v2"]
    ensures trace[2].argv == ["git", "push", "origin", "--tags"]
  {
    assert ReleaseName("202401011200", "v1") == "release-202401011200-v1";
    assert ReleaseName("202401011200", "v2") == "release-202401011200-v2";
    assert trace[0] == Run(TagCommand(ReleaseName("202401011200", "v1")), succeeds(0));
    assert trace[1] == Run(TagCommand(ReleaseName("202401011200", "v2")), succeeds(1));
  }
}
