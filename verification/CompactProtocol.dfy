/**
 One client compacting a directory log while any number of clients append to
 it, as a state machine over the atomic steps of both.
 */
module CompactProtocol {
  import opened LogText
  import opened LogLines
  import opened DirLog
  import opened DirCaching

  /** Where the compacting client is between the object operations of compactDirOpLog. */
  datatype Phase = Idle | Updated | Cleared | Written

  /**
   The directory object (log, and whether "updated" reads "false"), the
   compactor's cache, and for the proofs: the names a log never compacted
   would hold, and whether the cache has seen all it has marked as read.
   */
  datatype World = World(log: string, notUpdated: bool, reader: Reader, phase: Phase, truth: set<string>, synced: bool)

  datatype Action =
    | Append(name: string, op: char)      // an entry line through writeContentsAtomically
    | MoveAppend(name: string, op: char)  // an entry line through moveLogicalFile, flag untouched
    | Refresh                             // update outside a compaction
    | StartUpdate
    | ClearFlag
    | Rewrite
    | Finish
    | Discard                             // the cache object is dropped and made anew

  predicate Enabled(w: World, a: Action) {
    match a
    case Append(_, op) => op == '+' || op == '-'
    case MoveAppend(_, op) => op == '+' || op == '-'
    case Refresh => w.phase == Idle
    case StartUpdate => w.phase == Idle
    case ClearFlag => w.phase == Updated
    case Rewrite => w.phase == Cleared
    case Finish => w.phase == Written
    case Discard => w.phase == Idle
  }

  /** A line goes in; after the rewrite and before its end the read mark will move past it unread. */
  ghost function Appended(w: World, name: string, op: char): World {
    w.(log := w.log + IndexLine(name, op), truth := NameStep(w.truth, name, op == '-'),
       synced := w.synced && w.phase != Written)
  }

  ghost function Next(w: World, a: Action): World {
    match a
    case Append(name, op) => Appended(w, name, op).(notUpdated := false)
    case MoveAppend(name, op) => Appended(w, name, op)
    case Refresh => w.(reader := Update(w.reader, w.log))
    case StartUpdate => w.(reader := Update(w.reader, w.log), phase := Updated)
    case ClearFlag => w.(notUpdated := true, phase := Cleared)
    case Rewrite =>
      if w.notUpdated then w.(log := CompactText(w.reader.cache.contents), phase := Written)
      else w.(phase := Written, synced := false)
    case Finish =>
      w.(reader := Reader(w.reader.cache.(lines := |w.reader.cache.contents|), |w.log|), phase := Idle)
    case Discard => w.(reader := FRESH, synced := true)
  }

  ghost function Run(w: World, acts: seq<Action>): World {
    if acts == [] then w else Next(Run(w, acts[..|acts| - 1]), acts[|acts| - 1])
  }

  ghost predicate Possible(w: World, acts: seq<Action>) {
    forall k :: 0 <= k < |acts| ==> Enabled(Run(w, acts[..k]), acts[k])
  }

  // ----- the guard of the rewrite -----

  function TextOf(a: Action): string {
    if a.Append? || a.MoveAppend? then IndexLine(a.name, a.op) else ""
  }

  function Texts(acts: seq<Action>): string {
    if acts == [] then "" else Texts(acts[..|acts| - 1]) + TextOf(acts[|acts| - 1])
  }

  ghost predicate NoneFlagged(acts: seq<Action>) {
    forall k :: 0 <= k < |acts| ==> !acts[k].Append?
  }

  lemma StepAfterClearing(w: World, a: Action)
    requires w.phase == Cleared && Enabled(w, a) && a != Rewrite
    ensures var w' := Next(w, a);
            w'.phase == Cleared && w'.reader == w.reader && w'.log == w.log + TextOf(a) &&
            (w'.notUpdated <==> w.notUpdated && !a.Append?)
  {
  }

  lemma PossiblePrefix(w: World, acts: seq<Action>)
    requires acts != [] && Possible(w, acts)
    ensures Possible(w, acts[..|acts| - 1]) && Enabled(Run(w, acts[..|acts| - 1]), acts[|acts| - 1])
  {
    var front := acts[..|acts| - 1];
    forall k | 0 <= k < |front| ensures Enabled(Run(w, front[..k]), front[k]) {
      assert front[..k] == acts[..k];
    }
  }

  lemma {:induction false} BetweenClearAndRewrite(start: World, acts: seq<Action>)
    requires start.phase == Cleared && Possible(start, acts) && Rewrite !in acts
    ensures var w' := Run(start, acts);
            w'.phase == Cleared && w'.reader == start.reader && w'.log == start.log + Texts(acts) &&
            (w'.notUpdated <==> start.notUpdated && NoneFlagged(acts))
  {
    hide Next, Enabled, TextOf, Possible;
    if acts == [] {
      assert start.log + "" == start.log;
    } else {
      var front, a := acts[..|acts| - 1], acts[|acts| - 1];
      PossiblePrefix(start, acts);
      BetweenClearAndRewrite(start, front);
      StepAfterClearing(Run(start, front), a);
      Assoc(start.log, Texts(front), TextOf(a));
      assert acts == front + [a];
    }
  }

  /**
   In every interleaving the rewrite takes effect exactly when no append went
   through the atomic append since the flag was cleared; otherwise every line
   written since is still in the log, in order.
   */
  lemma RewriteOnlyWhenQuiet(w: World, acts: seq<Action>)
    requires w.phase == Updated
    requires Possible(Next(w, ClearFlag), acts) && Rewrite !in acts
    ensures var w' := Run(Next(w, ClearFlag), acts);
            Enabled(w', Rewrite) &&
            Next(w', Rewrite).log ==
            if NoneFlagged(acts) then CompactText(w.reader.cache.contents) else w.log + Texts(acts)
  {
    hide Texts, Possible, Run, CompactText, IndexLine, Update, NoneFlagged;
    BetweenClearAndRewrite(Next(w, ClearFlag), acts);
  }

  // ----- no name is lost -----

  /** The log replays to the true names and carries no metadata. */
  ghost predicate TrueLog(w: World) {
    var c := Replay(EMPTY, w.log);
    Terminated(w.log) && Sound(c) && c.names == w.truth && NoMetadata(c.contents) && CleanNames(c.contents)
  }

  ghost predicate Inv(w: World) {
    && TrueLog(w)
    && (w.phase == Idle && w.synced ==> w.reader.size <= |w.log| && InStep(w.reader, w.log[..w.reader.size]))
    && (w.phase == Updated ==> w.synced && InStep(w.reader, w.log))
    && (w.phase == Cleared ==> w.synced && (w.notUpdated ==> InStep(w.reader, w.log)))
    && (w.phase == Written && w.synced ==>
          w.log == CompactText(w.reader.cache.contents) && w.reader.cache.names == w.reader.cache.contents.Keys &&
          NoMetadata(w.reader.cache.contents) && CleanNames(w.reader.cache.contents))
  }

  /**
   The runs in which nothing gets lost: names are free of backslashes
   and zero characters; no line is appended between the update and the clearing of the flag; a file move
   does not fall between clearing and rewrite; and after a compaction that was
   cancelled, or during whose last step lines came in, the cache is discarded
   before it is used again.
   */
  predicate Careful(w: World, a: Action) {
    match a
    case Append(name, _) => Loggable(name) && w.phase != Updated
    case MoveAppend(name, _) => Loggable(name) && w.phase != Updated && w.phase != Cleared
    case Refresh => w.synced
    case StartUpdate => w.synced
    case _ => true
  }

  lemma AppendedLog(log: string, name: string, op: char)
    requires Terminated(log) && Loggable(name) && (op == '+' || op == '-') && Sound(Replay(EMPTY, log))
    requires NoMetadata(Replay(EMPTY, log).contents) && CleanNames(Replay(EMPTY, log).contents)
    ensures Terminated(log + IndexLine(name, op))
    ensures var c, c' := Replay(EMPTY, log), Replay(EMPTY, log + IndexLine(name, op));
            && Sound(c') && c'.names == NameStep(c.names, name, op == '-')
            && NoMetadata(c'.contents) && CleanNames(c'.contents)
  {
    hide ParsedLines, IndexLine;
    EntryLine(name, op);
    ReplayConcat(EMPTY, log, IndexLine(name, op));
    var c, p := Replay(EMPTY, log), NOTHING.(name := name, delete := op == '-');
    ReplayLineSound(c, p);
    assert [p][..0] == [];
    assert ReplayAll(c, []) == c;
    assert ReplayAll(c, [p]) == ReplayLine(c, p);
    ReplayLineNames(c, p);
    EntryCarriesNoMetadata(c, name, op);
    hide ReplayLine;
  }

  lemma EntryCarriesNoMetadata(c: Cache, name: string, op: char)
    requires NoMetadata(c.contents) && CleanNames(c.contents) && Loggable(name)
    ensures var c' := ReplayLine(c, NOTHING.(name := name, delete := op == '-'));
            NoMetadata(c'.contents) && CleanNames(c'.contents)
  {
    var none: map<string, string> := map[];
    assert (none + map[]) - {} == none;
  }

  lemma AppendKeepsInv(w: World, a: Action)
    requires Inv(w) && Enabled(w, a) && Careful(w, a) && (a.Append? || a.MoveAppend?)
    ensures Inv(Next(w, a))
  {
    hide Replay, IndexLine, NameStep, CompactText;
    AppendedLog(w.log, a.name, a.op);
    var log' := w.log + IndexLine(a.name, a.op);
    if w.phase == Idle && w.synced {
      assert log'[..w.reader.size] == w.log[..w.reader.size];
    }
  }

  lemma UpdateKeepsInv(w: World, a: Action)
    requires Inv(w) && Enabled(w, a) && Careful(w, a) && (a.Refresh? || a.StartUpdate?)
    ensures Inv(Next(w, a))
  {
    hide Replay, Update;
    var seen := w.log[..w.reader.size];
    UpdateKeepsStep(w.reader, seen, w.log);
    assert w.log[..|w.log|] == w.log;
  }

  lemma CompactedLog(c: Cache, log: string)
    requires c == Replay(EMPTY, log) && Sound(c) && NoMetadata(c.contents) && CleanNames(c.contents)
    ensures c.names == c.contents.Keys
    ensures Terminated(CompactText(c.contents))
    ensures Replay(EMPTY, CompactText(c.contents)) == Cache(c.contents, c.contents.Keys, |c.contents|)
  {
    CompactionPreservesNames(c.contents);
  }

  lemma RewriteKeepsInv(w: World, a: Action)
    requires Inv(w) && Enabled(w, a) && (a.Rewrite? || a.ClearFlag?)
    ensures Inv(Next(w, a))
  {
    hide Replay, CompactText;
    if a.Rewrite? && w.notUpdated {
      CompactedLog(w.reader.cache, w.log);
    }
  }

  lemma FinishKeepsInv(w: World)
    requires Inv(w) && w.phase == Written
    ensures Inv(Next(w, Finish))
  {
    hide Replay, CompactText;
    if w.synced {
      CompactionPreservesNames(w.reader.cache.contents);
      assert w.log[..|w.log|] == w.log;
    }
  }

  lemma DiscardKeepsInv(w: World)
    requires Inv(w) && w.phase == Idle
    ensures Inv(Next(w, Discard))
  {
    assert w.log[..0] == [];
    NoLines();
    assert ReplayAll(EMPTY, []) == EMPTY;
  }

  lemma StepKeepsInv(w: World, a: Action)
    requires Inv(w) && Enabled(w, a) && Careful(w, a)
    ensures Inv(Next(w, a))
  {
    hide Inv, Next;
    match a
    case Append(_, _) => AppendKeepsInv(w, a);
    case MoveAppend(_, _) => AppendKeepsInv(w, a);
    case Refresh => UpdateKeepsInv(w, a);
    case StartUpdate => UpdateKeepsInv(w, a);
    case ClearFlag => RewriteKeepsInv(w, a);
    case Rewrite => RewriteKeepsInv(w, a);
    case Finish => FinishKeepsInv(w);
    case Discard => DiscardKeepsInv(w);
  }

  ghost predicate CarefulRun(w: World, acts: seq<Action>) {
    forall k :: 0 <= k < |acts| ==> Careful(Run(w, acts[..k]), acts[k])
  }

  /** The names that all lines among these actions leave, one after another. */
  function Committed(names: set<string>, acts: seq<Action>): set<string> {
    if acts == [] then names else
      var a, before := acts[|acts| - 1], Committed(names, acts[..|acts| - 1]);
      if a.Append? || a.MoveAppend? then NameStep(before, a.name, a.op == '-') else before
  }

  lemma {:induction false} TruthIsCommitted(w: World, acts: seq<Action>)
    ensures Run(w, acts).truth == Committed(w.truth, acts)
  {
    hide NameStep, CompactText, Update;
    if acts != [] {
      TruthIsCommitted(w, acts[..|acts| - 1]);
    }
  }

  /**
   Over every careful run, whatever the interleaving and however many
   compactions it holds, the log always replays to exactly the names that all
   lines committed since the beginning leave on those it began with; and a
   cache that may be used sees just these names once it is updated.
   */
  lemma NoNameIsLost(w: World, acts: seq<Action>)
    requires Inv(w) && Possible(w, acts) && CarefulRun(w, acts)
    ensures Inv(Run(w, acts))
    ensures Replay(EMPTY, Run(w, acts).log).names == Committed(Replay(EMPTY, w.log).names, acts)
    ensures var w' := Run(w, acts);
            w'.phase == Idle && w'.synced ==>
              Next(w', Refresh).reader.cache.names == Committed(Replay(EMPTY, w.log).names, acts) &&
              Next(w', StartUpdate).reader.cache.names == Committed(Replay(EMPTY, w.log).names, acts)
  {
    hide Run, Committed, Replay, Possible, CarefulRun, Update;
    StaysTrue(w, acts);
    TruthIsCommitted(w, acts);
    var w' := Run(w, acts);
    assert TrueLog(w) && TrueLog(w');
    if w'.phase == Idle && w'.synced {
      UpdatedNames(w');
    }
  }

  lemma {:induction false} StaysTrue(w: World, acts: seq<Action>)
    requires Inv(w) && Possible(w, acts) && CarefulRun(w, acts)
    ensures Inv(Run(w, acts))
    ensures Replay(EMPTY, Run(w, acts).log).names == Run(w, acts).truth
  {
    if acts != [] {
      var front, a := acts[..|acts| - 1], acts[|acts| - 1];
      PossiblePrefix(w, acts);
      forall k | 0 <= k < |front| ensures Careful(Run(w, front[..k]), front[k]) {
        assert front[..k] == acts[..k];
      }
      StaysTrue(w, front);
      StepKeepsInv(Run(w, front), a);
    }
    hide Replay;
    assert TrueLog(Run(w, acts));
  }

  /** A new directory with a new cache is such a state; so is any log of plain entries with a new cache. */
  lemma FreshWorld(log: string, notUpdated: bool)
    requires Terminated(log) && AllWhole(ParsedLines(log))
    requires NoMetadata(Replay(EMPTY, log).contents) && CleanNames(Replay(EMPTY, log).contents)
    ensures Inv(World(log, notUpdated, FRESH, Idle, Replay(EMPTY, log).names, true))
    ensures Inv(World("", notUpdated, FRESH, Idle, {}, true))
  {
    NoLines();
    ReplayAllSound(EMPTY, ParsedLines(log));
    assert ReplayAll(EMPTY, []) == EMPTY && log[..0] == [];
  }

  // ----- what the care is needed for -----

  predicate AllLines(acts: seq<Action>) {
    forall k :: 0 <= k < |acts| ==>
      (acts[k].Append? || acts[k].MoveAppend?) && (acts[k].op == '+' || acts[k].op == '-') && Loggable(acts[k].name)
  }

  /** The names the lines leave together. */
  function After(names: set<string>, acts: seq<Action>): set<string>
    requires AllLines(acts)
  {
    if acts == [] then names else
      var a := acts[|acts| - 1];
      NameStep(After(names, acts[..|acts| - 1]), a.name, a.op == '-')
  }

  lemma {:induction false} AfterConcat(names: set<string>, acts: seq<Action>, more: seq<Action>)
    requires AllLines(acts) && AllLines(more)
    ensures AllLines(acts + more) && After(names, acts + more) == After(After(names, acts), more)
  {
    hide AllLines;
    AllLinesConcat(acts, more);
    if more == [] {
      assert acts + more == acts;
    } else {
      var front := more[..|more| - 1];
      AllLinesPrefix(more);
      assert (acts + more)[..|acts + more| - 1] == acts + front;
      AfterConcat(names, acts, front);
      AllLinesPrefix(acts + more);
    }
  }

  lemma AllLinesConcat(acts: seq<Action>, more: seq<Action>)
    requires AllLines(acts) && AllLines(more)
    ensures AllLines(acts + more)
  {
  }

  lemma AllLinesPrefix(acts: seq<Action>)
    requires AllLines(acts) && acts != []
    ensures AllLines(acts[..|acts| - 1])
  {
  }

  /** A run of lines appends their texts and changes nothing else of the compactor. */
  lemma {:induction false} RunLines(w: World, acts: seq<Action>)
    requires AllLines(acts)
    ensures var w' := Run(w, acts);
            w' == w.(log := w.log + Texts(acts), truth := After(w.truth, acts), notUpdated := w'.notUpdated, synced := w'.synced)
    ensures Run(w, acts).notUpdated <==> w.notUpdated && NoneFlagged(acts)
  {
    hide IndexLine, NameStep, AllLines;
    if acts == [] {
      assert w.log + "" == w.log;
    } else {
      var front, a := acts[..|acts| - 1], acts[|acts| - 1];
      AllLinesPrefix(acts);
      RunLines(w, front);
      LastIsLine(acts);
      Assoc(w.log, Texts(front), TextOf(a));
      assert acts == front + [a];
    }
  }

  lemma LastIsLine(acts: seq<Action>)
    requires AllLines(acts) && acts != []
    ensures var a := acts[|acts| - 1]; (a.Append? || a.MoveAppend?) && (a.op == '+' || a.op == '-') && Loggable(a.name)
  {
  }

  /** Lines of plain entries replay on top of a log of plain entries. */
  lemma {:induction false} ReplayLines(log: string, acts: seq<Action>)
    requires AllLines(acts) && Terminated(log) && Sound(Replay(EMPTY, log))
    requires NoMetadata(Replay(EMPTY, log).contents) && CleanNames(Replay(EMPTY, log).contents)
    ensures var c := Replay(EMPTY, log + Texts(acts));
            Terminated(log + Texts(acts)) && Sound(c) && c.names == After(Replay(EMPTY, log).names, acts) &&
            NoMetadata(c.contents) && CleanNames(c.contents)
  {
    hide IndexLine, NameStep, AllLines, Replay, NoMetadata, CleanNames;
    if acts == [] {
      assert log + "" == log;
    } else {
      var front, a := acts[..|acts| - 1], acts[|acts| - 1];
      AllLinesPrefix(acts);
      LastIsLine(acts);
      ReplayLines(log, front);
      Assoc(log, Texts(front), TextOf(a));
      AppendedLog(log + Texts(front), a.name, a.op);
    }
  }

  lemma UpdatedNames(w: World)
    requires Inv(w) && w.phase == Idle && w.synced
    ensures var w' := Next(w, StartUpdate);
            w'.reader.cache == Replay(EMPTY, w.log) && w'.reader.size == |w.log| &&
            NoMetadata(w'.reader.cache.contents) && CleanNames(w'.reader.cache.contents) &&
            w'.reader.cache.names == w.truth && Terminated(w.log) && Sound(Replay(EMPTY, w.log))
  {
    hide Replay, Update;
    UpdateKeepsStep(w.reader, w.log[..w.reader.size], w.log);
  }

  /** One compaction, with lines coming in before the clearing, before the rewrite and after it. */
  ghost function Round(w: World, first: seq<Action>, between: seq<Action>, last: seq<Action>): World {
    Next(Run(Next(Run(Next(Run(Next(w, StartUpdate), first), ClearFlag), between), Rewrite), last), Finish)
  }

  function RoundActions(first: seq<Action>, between: seq<Action>, last: seq<Action>): seq<Action> {
    [StartUpdate] + first + [ClearFlag] + between + [Rewrite] + last + [Finish]
  }

  lemma {:induction false} RunConcat(w: World, a: seq<Action>, b: seq<Action>)
    ensures Run(w, a + b) == Run(Run(w, a), b)
  {
    hide Next;
    if b == [] {
      assert a + b == a;
    } else {
      assert (a + b)[..|a + b| - 1] == a + b[..|b| - 1];
      RunConcat(w, a, b[..|b| - 1]);
    }
  }

  lemma PossibleConcat(w: World, a: seq<Action>, b: seq<Action>)
    requires Possible(w, a) && Possible(Run(w, a), b)
    ensures Possible(w, a + b)
  {
    hide Run, Enabled;
    forall k | 0 <= k < |a + b| ensures Enabled(Run(w, (a + b)[..k]), (a + b)[k]) {
      if k < |a| {
        assert (a + b)[..k] == a[..k];
      } else {
        assert (a + b)[..k] == a + b[..k - |a|];
        RunConcat(w, a, b[..k - |a|]);
      }
    }
  }

  lemma RunOne(w: World, a: Action)
    ensures Run(w, [a]) == Next(w, a) && (Enabled(w, a) ==> Possible(w, [a]))
  {
    hide Next, Enabled;
    assert [a][..0] == [];
    assert Run(w, []) == w;
  }

  /** Lines can come in at any time, and leave the compacting client where it is. */
  lemma {:induction false} LinesPossible(w: World, acts: seq<Action>)
    requires AllLines(acts)
    ensures Possible(w, acts) && Run(w, acts).phase == w.phase
  {
    hide Appended, AllLines;
    if acts != [] {
      var front := acts[..|acts| - 1];
      AllLinesPrefix(acts);
      LastIsLine(acts);
      LinesPossible(w, front);
      AppendedPhase(Run(w, front), acts[|acts| - 1]);
      RunOne(Run(w, front), acts[|acts| - 1]);
      PossibleConcat(w, front, [acts[|acts| - 1]]);
      assert acts == front + [acts[|acts| - 1]];
    }
  }

  lemma AppendedPhase(w: World, a: Action)
    requires (a.Append? || a.MoveAppend?) && (a.op == '+' || a.op == '-')
    ensures Enabled(w, a) && Next(w, a).phase == w.phase
  {
    hide IndexLine, NameStep;
  }

  /** One step of the compacting client and then lines. */
  lemma StepThenLines(w: World, a: Action, lines: seq<Action>, phase: Phase)
    requires Enabled(w, a) && AllLines(lines) && Next(w, a).phase == phase
    ensures Possible(w, [a] + lines) && Run(w, [a] + lines) == Run(Next(w, a), lines) && Run(w, [a] + lines).phase == phase
  {
    hide Run, Next, Enabled, Possible, AllLines;
    RunOne(w, a);
    LinesPossible(Next(w, a), lines);
    PossibleConcat(w, [a], lines);
    RunConcat(w, [a], lines);
  }

  /** A compaction with lines coming in at every point of it is a run of the protocol. */
  lemma RoundIsRun(w: World, first: seq<Action>, between: seq<Action>, last: seq<Action>)
    requires w.phase == Idle && AllLines(first) && AllLines(between) && AllLines(last)
    ensures var acts := RoundActions(first, between, last);
            Possible(w, acts) && Run(w, acts) == Round(w, first, between, last) && Run(w, acts).phase == Idle
  {
    hide Run, Possible, AllLines, Update, CompactText;
    var a, b, c := [StartUpdate] + first, [ClearFlag] + between, [Rewrite] + last;
    StepThenLines(w, StartUpdate, first, Updated);
    var w1 := Run(w, a);
    StepThenLines(w1, ClearFlag, between, Cleared);
    var w2 := Run(w1, b);
    StepThenLines(w2, Rewrite, last, Written);
    var w3 := Run(w2, c);
    RunOne(w3, Finish);
    PossibleConcat(w, a, b);
    RunConcat(w, a, b);
    PossibleConcat(w, a + b, c);
    RunConcat(w, a + b, c);
    PossibleConcat(w, a + b + c, [Finish]);
    RunConcat(w, a + b + c, [Finish]);
    assert a + b + c + [Finish] == RoundActions(first, between, last);
  }

  /** The world just after the rewrite of such a compaction. */
  lemma RewrittenWorld(w: World, first: seq<Action>, between: seq<Action>)
    requires Inv(w) && w.phase == Idle && w.synced && AllLines(first) && AllLines(between)
    ensures var c := Next(w, StartUpdate).reader.cache;
            var w2 := Next(Run(Next(Run(Next(w, StartUpdate), first), ClearFlag), between), Rewrite);
            && w2.truth == After(After(w.truth, first), between) && w2.reader.cache == c
            && w2.log == (if NoneFlagged(between) then CompactText(c.contents) else w.log + Texts(first) + Texts(between))
  {
    hide CompactText, Update, Texts, After, AllLines, NoneFlagged, Inv;
    var w0 := Next(w, StartUpdate);
    RunLines(w0, first);
    RunLines(Next(Run(w0, first), ClearFlag), between);
  }

  /**
   What a compaction leaves, whatever lines come in during it: with no atomic
   append between clearing and rewrite, the names it began with and the lines
   after the rewrite; otherwise all lines. The cache keeps the names it began
   with, and its read mark moves to the end.
   */
  lemma RoundLeaves(w: World, first: seq<Action>, between: seq<Action>, last: seq<Action>)
    requires Inv(w) && w.phase == Idle && w.synced && AllLines(first) && AllLines(between) && AllLines(last)
    ensures AllLines(first + between + last)
    ensures var w' := Round(w, first, between, last);
            && w'.truth == After(w.truth, first + between + last)
            && Replay(EMPTY, w'.log).names == (if NoneFlagged(between) then After(w.truth, last) else w'.truth)
            && w'.reader.cache.contents == Next(w, StartUpdate).reader.cache.contents && w'.reader.size == |w'.log|
  {
    hide Replay, CompactText, Update, Texts, After, AllLines, NoneFlagged, Inv, NoMetadata, CleanNames;
    UpdatedNames(w);
    RewrittenWorld(w, first, between);
    var c := Next(w, StartUpdate).reader.cache;
    CompactedLog(c, w.log);
    var w2 := Next(Run(Next(Run(Next(w, StartUpdate), first), ClearFlag), between), Rewrite);
    RunLines(w2, last);
    AfterConcat(w.truth, first, between);
    AfterConcat(w.truth, first + between, last);
    ReplayLines(CompactText(c.contents), last);
    ReplayLines(w.log, first);
    ReplayLines(w.log + Texts(first), between);
    ReplayLines(w.log + Texts(first) + Texts(between), last);
  }

  /** The names survive a compaction exactly when it is cancelled or the lines before its rewrite leave no trace. */
  lemma SurvivesRound(w: World, first: seq<Action>, between: seq<Action>, last: seq<Action>)
    requires Inv(w) && w.phase == Idle && w.synced && AllLines(first) && AllLines(between) && AllLines(last)
    ensures AllLines(first + between + last)
    ensures var w' := Round(w, first, between, last);
            Replay(EMPTY, w'.log).names == w'.truth <==>
            !NoneFlagged(between) || After(w.truth, last) == After(w.truth, first + between + last)
  {
    hide Replay, Round, After, AllLines, NoneFlagged, Inv;
    RoundLeaves(w, first, between, last);
  }

  /**
   The next compaction by the same cache writes the names the first one began
   with: they are the true ones exactly when all the lines together leave the
   names unchanged.
   */
  lemma SurvivesNextRound(w: World, first: seq<Action>, between: seq<Action>, last: seq<Action>)
    requires Inv(w) && w.phase == Idle && w.synced && AllLines(first) && AllLines(between) && AllLines(last)
    ensures AllLines(first + between + last)
    ensures var w' := Round(Round(w, first, between, last), [], [], []);
            Replay(EMPTY, w'.log).names == w'.truth <==> After(w.truth, first + between + last) == w.truth
  {
    hide Replay, CompactText, After, AllLines, NoneFlagged, Inv, Round;
    RoundLeaves(w, first, between, last);
    UpdatedNames(w);
    CompactedLog(Next(w, StartUpdate).reader.cache, w.log);
    QuietRound(Round(w, first, between, last));
  }

  /** A compaction by a cache that believes it has read everything. */
  lemma QuietRound(w: World)
    requires w.reader.size == |w.log|
    ensures var w' := Round(w, [], [], []);
            w'.truth == w.truth && w'.log == CompactText(w.reader.cache.contents)
  {
    hide CompactText;
  }

  /** Lines that land between the update and the clearing of the flag are lost, unless they leave the names unchanged. */
  lemma LostBeforeClearing(w: World, lines: seq<Action>)
    requires Inv(w) && w.phase == Idle && w.synced && AllLines(lines)
    ensures var w' := Round(w, lines, [], []);
            Replay(EMPTY, w'.log).names == w'.truth <==> After(w.truth, lines) == w.truth
  {
    hide Replay, Round, Inv;
    SurvivesRound(w, lines, [], []);
    assert lines + [] + [] == lines;
  }

  /** So are file moves that land between the clearing and the rewrite. */
  lemma MoveLostAfterClearing(w: World, lines: seq<Action>)
    requires Inv(w) && w.phase == Idle && w.synced && AllLines(lines) && NoneFlagged(lines)
    ensures var w' := Round(w, [], lines, []);
            Replay(EMPTY, w'.log).names == w'.truth <==> After(w.truth, lines) == w.truth
  {
    hide Replay, Round, Inv;
    SurvivesRound(w, [], lines, []);
    assert [] + lines + [] == lines;
  }

  /**
   Lines that cancel one compaction are skipped by the cache, whose read mark
   moves past them: they survive that compaction and are lost by the next,
   unless they leave the names unchanged.
   */
  lemma LostAfterCancelling(w: World, lines: seq<Action>)
    requires Inv(w) && w.phase == Idle && w.synced && AllLines(lines) && !NoneFlagged(lines)
    ensures var w1 := Round(w, [], lines, []);
            var w2 := Round(w1, [], [], []);
            && Replay(EMPTY, w1.log).names == w1.truth
            && (Replay(EMPTY, w2.log).names == w2.truth <==> After(w.truth, lines) == w.truth)
  {
    hide Replay, Round, Inv, NoneFlagged;
    SurvivesRound(w, [], lines, []);
    SurvivesNextRound(w, [], lines, []);
    assert [] + lines + [] == lines;
  }

  /** So are lines that land between the rewrite and the reading of the new size. */
  lemma LostAfterRewriting(w: World, lines: seq<Action>)
    requires Inv(w) && w.phase == Idle && w.synced && AllLines(lines)
    ensures var w1 := Round(w, [], [], lines);
            var w2 := Round(w1, [], [], []);
            && Replay(EMPTY, w1.log).names == w1.truth
            && (Replay(EMPTY, w2.log).names == w2.truth <==> After(w.truth, lines) == w.truth)
  {
    hide Replay, Round, Inv;
    SurvivesRound(w, [], [], lines);
    SurvivesNextRound(w, [], [], lines);
    assert [] + [] + lines == lines;
  }

  // ----- the code -----

  lemma {:induction false} FlaggedUnlessNone(acts: seq<Action>)
    requires AllLines(acts) && forall k :: 0 <= k < |acts| ==> acts[k].Append?
    ensures NoneFlagged(acts) <==> Texts(acts) == ""
  {
    if acts != [] {
      assert acts[0].Append?;
      LineNotEmpty(acts[|acts| - 1]);
      assert |Texts(acts)| >= |TextOf(acts[|acts| - 1])|;
    }
  }

  lemma LineNotEmpty(a: Action)
    requires a.Append? || a.MoveAppend?
    ensures TextOf(a) != ""
  {
    hide IndexText;
  }

  /** What the lines of one round leave in the log, and the cache at its end. */
  lemma RoundText(w: World, first: seq<Action>, between: seq<Action>, last: seq<Action>)
    requires AllLines(first) && AllLines(between) && AllLines(last)
    ensures var r, w' := Update(w.reader, w.log), Round(w, first, between, last);
            var log := if NoneFlagged(between) then CompactText(r.cache.contents) else w.log + Texts(first) + Texts(between);
            w'.log == log + Texts(last) && w'.reader == Reader(r.cache.(lines := |r.cache.contents|), |w'.log|)
  {
    hide CompactText, Update, Texts, AllLines, NoneFlagged, Run;
    var w0 := Next(w, StartUpdate);
    RunLines(w0, first);
    var w1 := Next(Run(w0, first), ClearFlag);
    RunLines(w1, between);
    RunLines(Next(Run(w1, between), Rewrite), last);
  }

  /**
   compactDirOpLog on the directory object is a round of the protocol, for the
   lines that come in by the atomic append while it is under way.
   */
  method Compact(cache: DirCache, dir: DirObject, before: string, between: string, after: string,
                 ghost w: World, ghost lines: (seq<Action>, seq<Action>, seq<Action>))
    requires cache.Valid() && dir.Valid() && dir.present && cache.Value() == w.reader && dir.log == w.log
    requires AllLines(lines.0) && AllLines(lines.1) && AllLines(lines.2)
    requires forall k :: 0 <= k < |lines.1| ==> lines.1[k].Append?
    requires before == Texts(lines.0) && between == Texts(lines.1) && after == Texts(lines.2)
    modifies cache, dir
    ensures cache.Valid() && dir.present
    ensures var w' := Round(w, lines.0, lines.1, lines.2); dir.log == w'.log && cache.Value() == w'.reader
  {
    hide Texts, AllLines, NoneFlagged, CompactText, Update, Round;
    FlaggedUnlessNone(lines.1);
    RoundText(w, lines.0, lines.1, lines.2);
    cache.CompactDirOpLog(dir, before, between, after);
  }

  /** The atomic append of an entry line is the step of that name. */
  method AppendEntry(dir: DirObject, name: string, op: char, ghost w: World)
    requires dir.Valid() && dir.log == w.log && dir.notUpdated == w.notUpdated && (op == '+' || op == '-')
    modifies dir
    ensures dir.present && dir.log == Next(w, Append(name, op)).log && dir.notUpdated == Next(w, Append(name, op)).notUpdated
  {
    hide IndexText;
    dir.Append(IndexLine(name, op));
  }

  /** update outside a compaction is the step of that name. */
  method Refreshed(cache: DirCache, dir: DirObject, ghost w: World) returns (ret: int)
    requires cache.Valid() && dir.Valid() && dir.present && cache.Value() == w.reader && dir.log == w.log
    modifies cache
    ensures cache.Valid() && ret == 0
    ensures cache.Value() == Next(w, Refresh).reader
  {
    hide Update;
    ret := cache.UpdateFrom(dir);
  }
}
