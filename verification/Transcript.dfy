/** Parsed transcript values and the order in which an explicit stack visits them. */
module JsonWalk {

  /** A dictionary is its keys and its values, in insertion order. */
  datatype Json =
    | Null
    | Bool(b: bool)
    | Num(n: real)
    | Str(s: string)
    | Arr(items: seq<Json>)
    | Obj(keys: seq<string>, values: seq<Json>)

  /** What is pushed when a value is popped: an object's values, a list's items. */
  function Children(v: Json): seq<Json> {
    match v
    case Arr(items) => items
    case Obj(_, values) => values
    case _ => []
  }

  /** Number of nodes in a value. */
  function Size(v: Json): nat
    decreases v
  {
    match v
    case Arr(items) => 1 + SizeAll(items)
    case Obj(_, values) => 1 + SizeAll(values)
    case _ => 1
  }

  function SizeAll(vs: seq<Json>): nat
    decreases vs
  {
    if vs == [] then 0 else Size(vs[0]) + SizeAll(vs[1..])
  }

  /** The nodes of a value in document order: itself, then its children from first to last. */
  function Nodes(v: Json): seq<Json>
    decreases v
  {
    match v
    case Arr(items) => [v] + NodesAll(items)
    case Obj(_, values) => [v] + NodesAll(values)
    case _ => [v]
  }

  function NodesAll(vs: seq<Json>): seq<Json>
    decreases vs
  {
    if vs == [] then [] else Nodes(vs[0]) + NodesAll(vs[1..])
  }

  /** The nodes of a value, children from last to first. */
  function Walk(v: Json): seq<Json>
    decreases v
  {
    match v
    case Arr(items) => [v] + WalkAll(items)
    case Obj(_, values) => [v] + WalkAll(values)
    case _ => [v]
  }

  /** The nodes of several values, last value first. */
  function WalkAll(vs: seq<Json>): seq<Json>
    decreases vs
  {
    if vs == [] then [] else WalkAll(vs[1..]) + Walk(vs[0])
  }

  lemma WalkUnfolds(v: Json)
    ensures Walk(v) == [v] + WalkAll(Children(v)) && Nodes(v) == [v] + NodesAll(Children(v))
    ensures Size(v) == 1 + SizeAll(Children(v))
  {
    if !v.Arr? && !v.Obj? {
      assert WalkAll([]) == [] && NodesAll([]) == [];
    }
  }

  lemma {:induction false} WalkAllConcat(a: seq<Json>, b: seq<Json>)
    ensures WalkAll(a + b) == WalkAll(b) + WalkAll(a)
    ensures SizeAll(a + b) == SizeAll(a) + SizeAll(b)
  {
    if a == [] {
      assert a + b == b;
    } else {
      assert (a + b)[1..] == a[1..] + b;
      WalkAllConcat(a[1..], b);
    }
  }

  /** Popping the last value of a stack and pushing its children continues the walk. */
  lemma PopStep(stack: seq<Json>)
    requires stack != []
    ensures var v := stack[|stack| - 1];
            var rest := stack[..|stack| - 1] + Children(v);
            WalkAll(stack) == [v] + WalkAll(rest) && SizeAll(rest) < SizeAll(stack)
  {
    var init, v := stack[..|stack| - 1], stack[|stack| - 1];
    assert stack == init + [v];
    WalkAllConcat(init, [v]);
    assert [v][1..] == [];
    assert WalkAll([v]) == Walk(v) && SizeAll([v]) == Size(v);
    WalkUnfolds(v);
    WalkAllConcat(init, Children(v));
  }

  /** The explicit-stack walk of one value. */
  method Visit(event: Json) returns (visited: seq<Json>)
    ensures visited == Walk(event)
  {
    visited := [];
    var stack := [event];
    assert WalkAll([event]) == Walk(event) by { assert [event][1..] == []; }
    while stack != []
      invariant visited + WalkAll(stack) == Walk(event)
      decreases SizeAll(stack)
    {
      PopStep(stack);
      var v := stack[|stack| - 1];
      stack := stack[..|stack| - 1] + Children(v);
      visited := visited + [v];
    }
  }

  /** Every node is visited exactly once: the walk is a rearrangement of document order. */
  lemma {:induction false} WalkVisitsEachOnce(v: Json)
    ensures multiset(Walk(v)) == multiset(Nodes(v)) && |Walk(v)| == Size(v)
    decreases v
  {
    match v
    case Arr(items) => WalkAllVisitsEachOnce(items);
    case Obj(_, values) => WalkAllVisitsEachOnce(values);
    case _ =>
  }

  lemma {:induction false} WalkAllVisitsEachOnce(vs: seq<Json>)
    ensures multiset(WalkAll(vs)) == multiset(NodesAll(vs)) && |WalkAll(vs)| == SizeAll(vs)
    decreases vs
  {
    if vs != [] {
      WalkVisitsEachOnce(vs[0]);
      WalkAllVisitsEachOnce(vs[1..]);
    }
  }
}

/** Counting tool calls in transcripts that grow after a checkpoint. */
module Transcript {
  import opened Counting
  import opened Wrappers
  import opened Text
  import opened JsonWalk

  const CALL_PREFIX := "mcp__ministr__"

  // ---------------------------------------------------------------- reading an event

  /** `value.get(name)` on an object. */
  function Get(v: Json, name: string): Option<Json>
    requires v.Obj?
  {
    FindKey(v.keys, v.values, name)
  }

  function FindKey(keys: seq<string>, values: seq<Json>, name: string): Option<Json> {
    if keys == [] || values == [] then None
    else if keys[0] == name then Some(values[0])
    else FindKey(keys[1..], values[1..], name)
  }

  predicate Truthy(v: Json) {
    match v
    case Null => false
    case Bool(b) => b
    case Num(n) => n != 0.0
    case Str(s) => s != []
    case Arr(items) => items != []
    case Obj(keys, _) => keys != []
  }

  /** Lists and dictionaries cannot be dictionary keys. */
  predicate Hashable(v: Json) {
    !v.Arr? && !v.Obj?
  }

  /** Booleans and numbers that compare equal are one key. */
  function KeyOf(v: Json): Json {
    if v.Bool? then Num(if v.b then 1.0 else 0.0) else v
  }

  predicate IsToolUse(v: Json) {
    v.Obj? && Get(v, "type") == Some(Str("tool_use"))
  }

  /** The explicit id of an event, when it has a usable one. */
  function ExplicitId(v: Json): Option<Json>
    requires v.Obj?
  {
    match Get(v, "id")
    case Some(id) => if Truthy(id) then Some(id) else None
    case None => None
  }

  predicate IsToolResult(v: Json) {
    v.Obj? && Get(v, "type") == Some(Str("tool_result")) && ResultId(v).Some?
  }

  function ResultId(v: Json): Option<Json>
    requires v.Obj?
  {
    match Get(v, "tool_use_id")
    case Some(id) => if Truthy(id) then Some(id) else None
    case None => None
  }

  /** Recording this node raises, because its id cannot be a dictionary key. */
  predicate Raises(v: Json) {
    || (IsToolUse(v) && ExplicitId(v).Some? && !Hashable(ExplicitId(v).value))
    || (IsToolResult(v) && !Hashable(ResultId(v).value))
  }

  /** Where an event without an id stands. */
  datatype Place = Place(path: string, line: nat, ordinal: nat)

  function PlaceKey(at: Place): Json {
    Str(at.path + ":" + Digits(at.line) + ":" + Digits(at.ordinal))
  }

  /** One assignment to the dictionary of tool uses. */
  datatype Write = Write(event: Json, at: Place)

  predicate HasId(w: Write) {
    w.event.Obj? && ExplicitId(w.event).Some?
  }

  function WriteKey(w: Write): Json {
    if HasId(w) then KeyOf(ExplicitId(w.event).value) else PlaceKey(w.at)
  }

  /** The writes made while visiting nodes of one line; ordinals count tool uses from 1. */
  function UseWrites(path: string, line: nat, nodes: seq<Json>): (ws: seq<Write>)
    ensures |ws| <= |nodes| && forall i :: 0 <= i < |ws| ==> ws[i].at == Place(path, line, i + 1)
  {
    if nodes == [] then [] else
      var before, v := UseWrites(path, line, nodes[..|nodes| - 1]), nodes[|nodes| - 1];
      before + if IsToolUse(v) then [Write(v, Place(path, line, |before| + 1))] else []
  }

  /** The tool results recorded while visiting nodes, keyed by the use they answer. */
  function ResultsAfter(results: map<Json, Json>, nodes: seq<Json>): map<Json, Json> {
    if nodes == [] then results else
      var before, v := ResultsAfter(results, nodes[..|nodes| - 1]), nodes[|nodes| - 1];
      if !IsToolUse(v) && IsToolResult(v) then before[KeyOf(ResultId(v).value) := v] else before
  }

  /** A dictionary after writes: the last one under each key stays. */
  function Dictionary(uses: map<Json, Json>, ws: seq<Write>): map<Json, Json> {
    if ws == [] then uses else
      Dictionary(uses, ws[..|ws| - 1])[WriteKey(ws[|ws| - 1]) := ws[|ws| - 1].event]
  }

  predicate SomeRaises(nodes: seq<Json>) {
    exists i :: 0 <= i < |nodes| && Raises(nodes[i])
  }

  // ---------------------------------------------------------------- scanning one line

  lemma UseWritesAppend(path: string, line: nat, nodes: seq<Json>, v: Json)
    ensures var before := UseWrites(path, line, nodes);
            UseWrites(path, line, nodes + [v])
            == before + if IsToolUse(v) then [Write(v, Place(path, line, |before| + 1))] else []
  {
    assert (nodes + [v])[..|nodes|] == nodes;
  }

  lemma ResultsAppend(results: map<Json, Json>, nodes: seq<Json>, v: Json)
    ensures var before := ResultsAfter(results, nodes);
            ResultsAfter(results, nodes + [v])
            == if !IsToolUse(v) && IsToolResult(v) then before[KeyOf(ResultId(v).value) := v] else before
  {
    assert (nodes + [v])[..|nodes|] == nodes;
  }

  lemma DictionaryAppend(uses: map<Json, Json>, ws: seq<Write>, w: Write)
    ensures Dictionary(uses, ws + [w]) == Dictionary(uses, ws)[WriteKey(w) := w.event]
  {
    assert (ws + [w])[..|ws|] == ws;
  }

  /** An id counts as given unless it is missing, null, false, zero or empty. */
  lemma IdExact(v: Json)
    requires v.Obj?
    ensures ExplicitId(v).None?
            <==> match Get(v, "id")
                 case None => true
                 case Some(id) => id in {Null, Bool(false), Num(0.0), Str(""), Arr([])} || (id.Obj? && id.keys == [])
    ensures ExplicitId(v).Some? ==> Get(v, "id") == ExplicitId(v)
    ensures ResultId(v).None?
            <==> match Get(v, "tool_use_id")
                 case None => true
                 case Some(id) => id in {Null, Bool(false), Num(0.0), Str(""), Arr([])} || (id.Obj? && id.keys == [])
    ensures ResultId(v).Some? ==> Get(v, "tool_use_id") == ResultId(v)
  {
  }

  /** The number a boolean or a number counts as. */
  function Numeric(v: Json): Option<real> {
    match v
    case Bool(b) => Some(if b then 1.0 else 0.0)
    case Num(n) => Some(n)
    case _ => None
  }

  /** Two values are one key exactly when they are equal, or equal as numbers. */
  lemma KeyExact(a: Json, b: Json)
    ensures KeyOf(a) == KeyOf(b) <==> a == b || (Numeric(a).Some? && Numeric(a) == Numeric(b))
  {
  }

  // ---------------------------------------------------------------- keys that cannot be keys

  lemma {:induction false} WrittenBy(path: string, line: nat, nodes: seq<Json>, v: Json)
    requires v in nodes && IsToolUse(v)
    ensures exists i :: 0 <= i < |UseWrites(path, line, nodes)| && UseWrites(path, line, nodes)[i].event == v
  {
    var init, last := nodes[..|nodes| - 1], nodes[|nodes| - 1];
    var before, ws := UseWrites(path, line, init), UseWrites(path, line, nodes);
    if v in init {
      WrittenBy(path, line, init, v);
      var i :| 0 <= i < |before| && before[i].event == v;
      assert ws[i] == before[i];
    } else {
      assert ws[|before|].event == v;
    }
  }

  lemma {:induction false} WritesComeFromNodes(path: string, line: nat, nodes: seq<Json>, i: nat)
    requires i < |UseWrites(path, line, nodes)|
    ensures UseWrites(path, line, nodes)[i].event in nodes && IsToolUse(UseWrites(path, line, nodes)[i].event)
  {
    var init := nodes[..|nodes| - 1];
    if i < |UseWrites(path, line, init)| {
      WritesComeFromNodes(path, line, init, i);
    }
  }

  lemma {:induction false} ResultKeys(nodes: seq<Json>, k: Json)
    ensures k in ResultsAfter(map[], nodes)
            <==> exists v :: v in nodes && !IsToolUse(v) && IsToolResult(v) && KeyOf(ResultId(v).value) == k
  {
    if nodes != [] {
      ResultKeys(nodes[..|nodes| - 1], k);
      assert nodes == nodes[..|nodes| - 1] + [nodes[|nodes| - 1]];
    }
  }

  /** A line raises exactly when one of the keys it would write is a list or a dictionary. */
  lemma RaisesExactly(path: string, line: nat, nodes: seq<Json>)
    ensures SomeRaises(nodes)
            <==> || (exists i: nat :: i < |UseWrites(path, line, nodes)|
                                      && var k := WriteKey(UseWrites(path, line, nodes)[i]); k.Arr? || k.Obj?)
                 || (exists k :: k in ResultsAfter(map[], nodes) && (k.Arr? || k.Obj?))
  {
    var ws := UseWrites(path, line, nodes);
    if n :| 0 <= n < |nodes| && Raises(nodes[n]) {
      var v := nodes[n];
      if IsToolUse(v) {
        WrittenBy(path, line, nodes, v);
        var i: nat :| i < |ws| && ws[i].event == v;
        assert !Hashable(WriteKey(ws[i]));
      } else {
        ResultKeys(nodes, KeyOf(ResultId(v).value));
      }
    }
    if i: nat :| i < |ws| && !Hashable(WriteKey(ws[i])) {
      WritesComeFromNodes(path, line, nodes, i);
    }
    if k :| k in ResultsAfter(map[], nodes) && !Hashable(k) {
      ResultKeys(nodes, k);
    }
  }

  /** The two dictionaries and the count of tool uses on the current line. */
  datatype Tables = Tables(uses: map<Json, Json>, results: map<Json, Json>, ordinal: nat)

  /** The effect of visiting one node that does not raise. */
  function Note(path: string, line: nat, t: Tables, v: Json): Tables {
    if IsToolUse(v) then
      var w := Write(v, Place(path, line, t.ordinal + 1));
      Tables(t.uses[WriteKey(w) := v], t.results, t.ordinal + 1)
    else if IsToolResult(v) then
      t.(results := t.results[KeyOf(ResultId(v).value) := v])
    else t
  }

  function NoteAll(path: string, line: nat, t: Tables, nodes: seq<Json>): Tables {
    if nodes == [] then t else Note(path, line, NoteAll(path, line, t, nodes[..|nodes| - 1]), nodes[|nodes| - 1])
  }

  lemma NoteAppend(path: string, line: nat, t: Tables, nodes: seq<Json>, v: Json)
    ensures NoteAll(path, line, t, nodes + [v]) == Note(path, line, NoteAll(path, line, t, nodes), v)
  {
    assert (nodes + [v])[..|nodes|] == nodes;
  }

  /** Visiting nodes one by one performs exactly the writes of the line. */
  lemma {:induction false} NotesAreWrites(path: string, line: nat, t: Tables, nodes: seq<Json>)
    requires t.ordinal == 0
    ensures NoteAll(path, line, t, nodes)
         == Tables(Dictionary(t.uses, UseWrites(path, line, nodes)), ResultsAfter(t.results, nodes),
                   |UseWrites(path, line, nodes)|)
  {
    if nodes != [] {
      var init, v := nodes[..|nodes| - 1], nodes[|nodes| - 1];
      assert nodes == init + [v];
      NotesAreWrites(path, line, t, init);
      var before := UseWrites(path, line, init);
      UseWritesAppend(path, line, init, v);
      ResultsAppend(t.results, init, v);
      if IsToolUse(v) {
        DictionaryAppend(t.uses, before, Write(v, Place(path, line, |before| + 1)));
      } else {
        assert before + [] == before;
      }
    }
  }

  /** One turn of the stack loop, seen from the whole walk. */
  lemma TurnOfLoop(walk: seq<Json>, visited: seq<Json>, stack: seq<Json>)
    requires stack != [] && visited + WalkAll(stack) == walk
    ensures var v := stack[|stack| - 1];
            var rest := stack[..|stack| - 1] + Children(v);
            && (visited + [v]) + WalkAll(rest) == walk && SizeAll(rest) < SizeAll(stack)
            && (Raises(v) ==> SomeRaises(walk))
            && (!Raises(v) && !SomeRaises(visited) ==> !SomeRaises(visited + [v]))
  {
    PopStep(stack);
    assert walk[|visited|] == stack[|stack| - 1];
  }

  /** The inner loop of `_transcript_protocol_records` on one parsed line; `raised` reports a key error. */
  method ScanEvent(path: string, line: nat, event: Json, uses0: map<Json, Json>, results0: map<Json, Json>)
    returns (uses: map<Json, Json>, results: map<Json, Json>, raised: bool)
    ensures raised <==> SomeRaises(Walk(event))
    ensures !raised ==> uses == Dictionary(uses0, UseWrites(path, line, Walk(event)))
    ensures !raised ==> results == ResultsAfter(results0, Walk(event))
  {
    ghost var start := Tables(uses0, results0, 0);
    uses, results, raised := uses0, results0, false;
    ghost var visited: seq<Json> := [];
    var stack, ordinal := [event], 0;
    assert WalkAll([event]) == Walk(event) by { assert [event][1..] == []; }
    while stack != []
      invariant visited + WalkAll(stack) == Walk(event)
      invariant Tables(uses, results, ordinal) == NoteAll(path, line, start, visited)
      invariant !SomeRaises(visited)
      decreases SizeAll(stack)
    {
      TurnOfLoop(Walk(event), visited, stack);
      var v := stack[|stack| - 1];
      NoteAppend(path, line, start, visited, v);
      if Raises(v) {
        return uses, results, true;
      }
      uses, results, ordinal := RecordNode(path, line, v, uses, results, ordinal);
      stack := stack[..|stack| - 1] + Children(v);
      visited := visited + [v];
    }
    assert visited == Walk(event);
    NotesAreWrites(path, line, start, visited);
  }

  method RecordNode(path: string, line: nat, v: Json, uses0: map<Json, Json>, results0: map<Json, Json>, ordinal0: nat)
    returns (uses: map<Json, Json>, results: map<Json, Json>, ordinal: nat)
    requires !Raises(v)
    ensures Tables(uses, results, ordinal) == Note(path, line, Tables(uses0, results0, ordinal0), v)
  {
    uses, results, ordinal := uses0, results0, ordinal0;
    if IsToolUse(v) {
      ordinal := ordinal + 1;
      var id := ExplicitId(v);
      var key := if id.Some? then KeyOf(id.value) else PlaceKey(Place(path, line, ordinal));
      uses := uses[key := v];
    } else if IsToolResult(v) {
      results := results[KeyOf(ResultId(v).value) := v];
    }
  }

  // ---------------------------------------------------------------- lines and offsets

  /** The lines of a file, each with its newline; a last line may lack one. */
  function Lines(content: string): seq<string> {
    if content == [] then [] else
      var n := FirstLine(content);
      [content[..n]] + Lines(content[n..])
  }

  /** Length of the first line, newline included. */
  function FirstLine(content: string): (n: nat)
    requires content != []
    ensures 1 <= n <= |content|
  {
    if content[0] == '\n' || |content| == 1 then 1 else 1 + FirstLine(content[1..])
  }

  predicate EndsLine(content: string) {
    content == [] || content[|content| - 1] == '\n'
  }

  lemma {:induction false} FirstLineStable(prior: string, added: string)
    requires prior != [] && EndsLine(prior)
    ensures FirstLine(prior + added) == FirstLine(prior)
  {
    if prior[0] != '\n' {
      assert (prior + added)[1..] == prior[1..] + added;
      FirstLineStable(prior[1..], added);
    }
  }

  lemma LinesUnfold(content: string)
    requires content != []
    ensures Lines(content) == [content[..FirstLine(content)]] + Lines(content[FirstLine(content)..])
  {
  }

  lemma ConsConcat<T>(x: T, a: seq<T>, b: seq<T>)
    ensures [x] + (a + b) == [x] + a + b
  {
  }

  lemma {:induction false} LinesAfterFirst(prior: string, added: string)
    requires prior != [] && FirstLine(prior + added) == FirstLine(prior)
    requires var rest := prior[FirstLine(prior)..];
             Lines(rest + added) == Lines(rest) + Lines(added)
    ensures Lines(prior + added) == Lines(prior) + Lines(added)
  {
    var n, all := FirstLine(prior), prior + added;
    assert all[..n] == prior[..n] && all[n..] == prior[n..] + added;
    LinesUnfold(prior);
    LinesUnfold(all);
    ConsConcat(prior[..n], Lines(prior[n..]), Lines(added));
  }

  /** Text appended after a complete line adds its own lines and changes none. */
  lemma {:induction false} LinesConcat(prior: string, added: string)
    requires EndsLine(prior)
    ensures Lines(prior + added) == Lines(prior) + Lines(added)
  {
    if prior == [] {
      assert prior + added == added;
    } else {
      var n := FirstLine(prior);
      var rest := prior[n..];
      FirstLineStable(prior, added);
      assert EndsLine(rest);
      LinesConcat(rest, added);
      LinesAfterFirst(prior, added);
    }
  }

  /** Where reading starts: at the checkpoint, or at the beginning of a file that shrank. */
  function StartOffset(content: string, checkpoint: nat): (start: nat)
    ensures start <= |content|
  {
    if |content| >= checkpoint then checkpoint else 0
  }

  function NewLines(content: string, checkpoint: nat): seq<string> {
    Lines(content[StartOffset(content, checkpoint)..])
  }

  function Joined(lines: seq<string>): string {
    if lines == [] then [] else lines[0] + Joined(lines[1..])
  }

  /** A line: not empty, and with no newline before its last character. */
  predicate IsLine(line: string) {
    line != [] && forall i :: 0 <= i < |line| - 1 ==> line[i] != '\n'
  }

  /** Splitting into lines only cuts, right after every newline and nowhere else. */
  lemma {:induction false} LinesExact(content: string)
    ensures Joined(Lines(content)) == content
    ensures forall i :: 0 <= i < |Lines(content)| ==> IsLine(Lines(content)[i])
    ensures forall i :: 0 <= i < |Lines(content)| - 1 ==> EndsLine(Lines(content)[i])
  {
    if content != [] {
      var n := FirstLine(content);
      var rest := content[n..];
      FirstLineEnds(content);
      LinesExact(rest);
      LinesUnfold(content);
      assert Lines(content)[1..] == Lines(rest);
      assert content == content[..n] + rest;
      if rest == [] {
        assert Lines(rest) == [];
      }
    }
  }

  /** Where the first line ends: at the first newline, or at the end of the text. */
  lemma {:induction false} FirstLineEnds(content: string)
    requires content != []
    ensures var n := FirstLine(content);
            && (n < |content| ==> content[n - 1] == '\n')
            && forall i :: 0 <= i < n - 1 ==> content[i] != '\n'
  {
    if content[0] != '\n' && |content| > 1 {
      FirstLineEnds(content[1..]);
    }
  }

  /** A line without its newline goes on in the added text. */
  lemma {:induction false} FirstLineGoesOn(prior: string, added: string)
    requires prior != [] && added != [] && forall i :: 0 <= i < |prior| ==> prior[i] != '\n'
    ensures FirstLine(prior + added) == |prior| + FirstLine(added)
  {
    var all := prior + added;
    assert all[1..] == prior[1..] + added;
    if |prior| > 1 {
      FirstLineGoesOn(prior[1..], added);
    } else {
      assert all[1..] == added;
    }
  }

  lemma {:induction false} FirstLineKept(prior: string, added: string)
    requires prior != [] && FirstLine(prior) < |prior|
    ensures FirstLine(prior + added) == FirstLine(prior)
  {
    var n := FirstLine(prior);
    var line, rest := prior[..n], prior[n..];
    FirstLineEnds(prior);
    FirstLineStable(line, rest);
    FirstLineStable(line, rest + added);
    assert line + rest == prior && line + (rest + added) == prior + added;
  }

  /** Text added to an incomplete line merges with it. */
  lemma {:induction false} LinesMerge(prior: string, added: string)
    requires !EndsLine(prior) && added != []
    ensures |Lines(prior + added)| == |Lines(prior)| + |Lines(added)| - 1
  {
    var n := FirstLine(prior);
    if n < |prior| {
      FirstLineKept(prior, added);
      LinesMerge(prior[n..], added);
      MergeAfterFirst(prior, added);
    } else {
      FirstLineEnds(prior);
      MergeFirst(prior, added);
    }
  }

  lemma LinesCount(content: string, n: nat, rest: string)
    requires content != [] && FirstLine(content) == n && content[n..] == rest
    ensures |Lines(content)| == 1 + |Lines(rest)|
  {
  }

  lemma {:induction false} MergeAfterFirst(prior: string, added: string)
    requires prior != [] && FirstLine(prior + added) == FirstLine(prior)
    requires var rest := prior[FirstLine(prior)..];
             |Lines(rest + added)| == |Lines(rest)| + |Lines(added)| - 1
    ensures |Lines(prior + added)| == |Lines(prior)| + |Lines(added)| - 1
  {
    var n, all := FirstLine(prior), prior + added;
    var rest := prior[n..];
    assert all[n..] == rest + added;
    MergeCounts(all, prior, n, rest + added, rest);
  }

  lemma {:induction false} MergeCounts(all: string, prior: string, n: nat, restOfAll: string, rest: string)
    requires all != [] && prior != [] && FirstLine(all) == n == FirstLine(prior)
    requires all[n..] == restOfAll && prior[n..] == rest
    ensures |Lines(all)| - |Lines(prior)| == |Lines(restOfAll)| - |Lines(rest)|
  {
    LinesCount(all, n, restOfAll);
    LinesCount(prior, n, rest);
  }

  lemma {:induction false} MergeFirst(prior: string, added: string)
    requires prior != [] && added != [] && FirstLine(prior) == |prior|
    requires forall i :: 0 <= i < |prior| ==> prior[i] != '\n'
    ensures |Lines(prior + added)| == |Lines(prior)| + |Lines(added)| - 1
  {
    var n, all := FirstLine(added), prior + added;
    FirstLineGoesOn(prior, added);
    assert all[|prior| + n..] == added[n..];
    MergeFirstCounts(all, |prior| + n, added, n, added[n..]);
    LinesCount(prior, |prior|, []);
  }

  lemma {:induction false} MergeFirstCounts(all: string, m: nat, added: string, n: nat, tail: string)
    requires all != [] && added != [] && FirstLine(all) == m && FirstLine(added) == n
    requires all[m..] == tail && added[n..] == tail
    ensures |Lines(all)| == |Lines(added)|
  {
    LinesCount(all, m, tail);
    LinesCount(added, n, tail);
  }

  /** A grown file is read from where it had ended. The lines read and the old lines are all its lines if and only
      if it had ended on a line boundary, or has not grown. */
  lemma {:induction false} GrownFileReadsNewLines(prior: string, added: string)
    ensures NewLines(prior + added, |prior|) == Lines(added)
    ensures Lines(prior + added) == Lines(prior) + NewLines(prior + added, |prior|)
            <==> EndsLine(prior) || added == []
  {
    assert (prior + added)[|prior|..] == added;
    if EndsLine(prior) {
      LinesConcat(prior, added);
    } else if added == [] {
      assert prior + added == prior && Lines(added) == [];
    } else {
      LinesMerge(prior, added);
    }
  }

  /** A truncated file is read whole. */
  lemma TruncatedFileReadsAll(content: string, checkpoint: nat)
    requires |content| < checkpoint
    ensures NewLines(content, checkpoint) == Lines(content)
  {
    assert content[0..] == content;
  }

  // ---------------------------------------------------------------- scanning files

  /** The nodes a line contributes; a line that does not parse contributes none. */
  function LineNodes(parse: string -> Option<Json>, line: string): seq<Json> {
    match parse(line)
    case Some(event) => Walk(event)
    case None => []
  }

  /** The writes of the first lines of a file, lines counted from 1. */
  function FileWrites(parse: string -> Option<Json>, path: string, lines: seq<string>): seq<Write> {
    if lines == [] then [] else
      FileWrites(parse, path, lines[..|lines| - 1])
        + UseWrites(path, |lines|, LineNodes(parse, lines[|lines| - 1]))
  }

  /** The tool results recorded over the first lines of a file. */
  function FileResults(parse: string -> Option<Json>, results: map<Json, Json>, lines: seq<string>): map<Json, Json> {
    if lines == [] then results else
      ResultsAfter(FileResults(parse, results, lines[..|lines| - 1]), LineNodes(parse, lines[|lines| - 1]))
  }

  predicate LineRaises(parse: string -> Option<Json>, line: string) {
    SomeRaises(LineNodes(parse, line))
  }

  predicate FileRaises(parse: string -> Option<Json>, lines: seq<string>) {
    lines != [] && (FileRaises(parse, lines[..|lines| - 1]) || LineRaises(parse, lines[|lines| - 1]))
  }

  lemma {:induction false} DictionaryConcat(uses: map<Json, Json>, a: seq<Write>, b: seq<Write>)
    ensures Dictionary(uses, a + b) == Dictionary(Dictionary(uses, a), b)
  {
    if b == [] {
      assert a + b == a;
    } else {
      assert (a + b)[..|a + b| - 1] == a + b[..|b| - 1];
      DictionaryConcat(uses, a, b[..|b| - 1]);
    }
  }

  lemma NextLineWrites(parse: string -> Option<Json>, path: string, lines: seq<string>, i: nat, uses: map<Json, Json>)
    requires i < |lines|
    ensures Dictionary(uses, FileWrites(parse, path, lines[..i + 1]))
         == Dictionary(Dictionary(uses, FileWrites(parse, path, lines[..i])),
                       UseWrites(path, i + 1, LineNodes(parse, lines[i])))
  {
    var some, next := lines[..i], lines[..i + 1];
    assert next[..i] == some && next[i] == lines[i];
    DictionaryConcat(uses, FileWrites(parse, path, some), UseWrites(path, i + 1, LineNodes(parse, lines[i])));
  }

  lemma NextLineRaises(parse: string -> Option<Json>, lines: seq<string>, i: nat)
    requires i < |lines|
    ensures FileRaises(parse, lines[..i + 1]) <==> FileRaises(parse, lines[..i]) || LineRaises(parse, lines[i])
  {
    var next := lines[..i + 1];
    assert next[..i] == lines[..i] && next[i] == lines[i];
  }

  /** A key error in the first lines is a key error in the file. */
  lemma {:induction false} RaisesStill(parse: string -> Option<Json>, lines: seq<string>, i: nat)
    requires i <= |lines| && FileRaises(parse, lines[..i])
    ensures FileRaises(parse, lines)
    decreases |lines| - i
  {
    if i < |lines| {
      NextLineRaises(parse, lines, i);
      RaisesStill(parse, lines, i + 1);
    } else {
      assert lines[..i] == lines;
    }
  }

  /** One turn of the line loop: a line that does not parse is skipped. */
  method ScanLine(parse: string -> Option<Json>, path: string, number: nat, line: string,
                  uses0: map<Json, Json>, results0: map<Json, Json>)
    returns (uses: map<Json, Json>, results: map<Json, Json>, raised: bool)
    ensures raised <==> LineRaises(parse, line)
    ensures !raised ==> uses == Dictionary(uses0, UseWrites(path, number, LineNodes(parse, line)))
    ensures !raised ==> results == ResultsAfter(results0, LineNodes(parse, line))
  {
    uses, results, raised := uses0, results0, false;
    var parsed := parse(line);
    if parsed.Some? {
      uses, results, raised := ScanEvent(path, number, parsed.value, uses, results);
    }
  }

  lemma NextLineResults(parse: string -> Option<Json>, results: map<Json, Json>, lines: seq<string>, i: nat)
    requires i < |lines|
    ensures FileResults(parse, results, lines[..i + 1])
         == ResultsAfter(FileResults(parse, results, lines[..i]), LineNodes(parse, lines[i]))
  {
    var next := lines[..i + 1];
    assert next[..i] == lines[..i] && next[i] == lines[i];
  }

  /** `_transcript_protocol_records`. */
  method ScanFile(parse: string -> Option<Json>, path: string, lines: seq<string>)
    returns (uses: map<Json, Json>, results: map<Json, Json>, raised: bool)
    ensures raised <==> FileRaises(parse, lines)
    ensures !raised ==> uses == Dictionary(map[], FileWrites(parse, path, lines))
    ensures !raised ==> results == FileResults(parse, map[], lines)
  {
    uses, results, raised := map[], map[], false;
    for i := 0 to |lines|
      invariant uses == Dictionary(map[], FileWrites(parse, path, lines[..i]))
      invariant results == FileResults(parse, map[], lines[..i])
      invariant !FileRaises(parse, lines[..i])
    {
      NextLineWrites(parse, path, lines, i, map[]);
      NextLineResults(parse, map[], lines, i);
      uses, results, raised := ScanLine(parse, path, i + 1, lines[i], uses, results);
      NextLineRaises(parse, lines, i);
      if raised {
        RaisesStill(parse, lines, i + 1);
        return;
      }
    }
    assert lines[..|lines|] == lines;
  }

  /** A transcript file and the size it had at the checkpoint (zero if it did not exist). */
  datatype File = File(path: string, content: string, checkpoint: nat)

  /** All writes of `_new_transcript_records`, file after file. */
  function AllWrites(parse: string -> Option<Json>, files: seq<File>): seq<Write> {
    if files == [] then [] else
      var f := files[|files| - 1];
      AllWrites(parse, files[..|files| - 1]) + FileWrites(parse, f.path, NewLines(f.content, f.checkpoint))
  }

  /** The merged tool results, the later file winning. */
  function AllResults(parse: string -> Option<Json>, files: seq<File>): map<Json, Json> {
    if files == [] then map[] else
      var f := files[|files| - 1];
      AllResults(parse, files[..|files| - 1]) + FileResults(parse, map[], NewLines(f.content, f.checkpoint))
  }

  predicate NewLinesRaise(parse: string -> Option<Json>, f: File) {
    FileRaises(parse, NewLines(f.content, f.checkpoint))
  }

  predicate AnyRaises(parse: string -> Option<Json>, files: seq<File>) {
    files != [] && (AnyRaises(parse, files[..|files| - 1]) || NewLinesRaise(parse, files[|files| - 1]))
  }

  /** The name test of `count_ministr_calls`: `None` when the name is not a string, which raises. */
  function MatchesCall(event: Json): Option<bool>
    requires event.Obj?
  {
    match Get(event, "name")
    case None => Some(false)
    case Some(Str(name)) => Some(CALL_PREFIX <= name)
    case Some(_) => None
  }

  predicate Matching(event: Json) {
    event.Obj? && MatchesCall(event) == Some(true)
  }

  function Found(uses: map<Json, Json>): set<Json> {
    set k | k in uses && Matching(uses[k])
  }

  lemma {:induction false} DictionaryMerges(uses: map<Json, Json>, ws: seq<Write>)
    ensures Dictionary(uses, ws) == uses + Dictionary(map[], ws)
  {
    if ws != [] {
      DictionaryMerges(uses, ws[..|ws| - 1]);
    }
  }

  lemma NextFile(parse: string -> Option<Json>, files: seq<File>, i: nat, uses: map<Json, Json>)
    requires i < |files| && uses == Dictionary(map[], AllWrites(parse, files[..i]))
    ensures var f := files[i];
            Dictionary(map[], AllWrites(parse, files[..i + 1]))
            == uses + Dictionary(map[], FileWrites(parse, f.path, NewLines(f.content, f.checkpoint)))
  {
    var f := files[i];
    var ws := FileWrites(parse, f.path, NewLines(f.content, f.checkpoint));
    assert files[..i + 1][..i] == files[..i];
    DictionaryConcat(map[], AllWrites(parse, files[..i]), ws);
    DictionaryMerges(uses, ws);
  }

  lemma NextRaises(parse: string -> Option<Json>, files: seq<File>, i: nat)
    requires i < |files|
    ensures AnyRaises(parse, files[..i + 1]) <==> AnyRaises(parse, files[..i]) || NewLinesRaise(parse, files[i])
  {
    assert files[..i + 1][..i] == files[..i];
  }

  lemma {:induction false} RaisePersists(parse: string -> Option<Json>, files: seq<File>, k: nat)
    requires k <= |files| && AnyRaises(parse, files[..k])
    ensures AnyRaises(parse, files)
  {
    if k == |files| {
      assert files[..k] == files;
    } else {
      var init := files[..|files| - 1];
      assert init[..k] == files[..k];
      RaisePersists(parse, init, k);
    }
  }

  lemma NextFileResults(parse: string -> Option<Json>, files: seq<File>, i: nat)
    requires i < |files|
    ensures AllResults(parse, files[..i + 1])
         == AllResults(parse, files[..i])
            + FileResults(parse, map[], NewLines(files[i].content, files[i].checkpoint))
  {
    assert files[..i + 1][..i] == files[..i];
  }

  /** `_new_transcript_records`: scan each file from its checkpoint and merge the dictionaries. */
  method NewRecords(parse: string -> Option<Json>, files: seq<File>)
    returns (uses: map<Json, Json>, results: map<Json, Json>, raised: bool)
    ensures raised <==> AnyRaises(parse, files)
    ensures !raised ==> uses == Dictionary(map[], AllWrites(parse, files)) && results == AllResults(parse, files)
  {
    uses, results, raised := map[], map[], false;
    for i := 0 to |files|
      invariant uses == Dictionary(map[], AllWrites(parse, files[..i]))
      invariant results == AllResults(parse, files[..i])
      invariant !AnyRaises(parse, files[..i])
    {
      var f := files[i];
      NextFile(parse, files, i, uses);
      NextFileResults(parse, files, i);
      NextRaises(parse, files, i);
      var newUses, newResults, failed := ScanFile(parse, f.path, NewLines(f.content, f.checkpoint));
      if failed {
        RaisePersists(parse, files, i + 1);
        return uses, results, true;
      }
      uses, results := uses + newUses, results + newResults;
    }
    assert files[..|files|] == files;
  }

  predicate NameRaises(event: Json) {
    event.Obj? && MatchesCall(event).None?
  }

  /** The keys under which the last written event satisfies `p`. */
  function KeysWhoseLast(ws: seq<Write>, p: Json -> bool): set<Json> {
    if ws == [] then {} else
      var w := ws[|ws| - 1];
      (KeysWhoseLast(ws[..|ws| - 1], p) - {WriteKey(w)}) + if p(w.event) then {WriteKey(w)} else {}
  }

  /** What a pass over the files must answer: nothing if some id cannot be a key or the last event under some key has
      a name that is not a string, and otherwise the number of keys whose last event is a call. */
  ghost predicate PassAnswers(parse: string -> Option<Json>, files: seq<File>, count: Option<nat>) {
    var ws := AllWrites(parse, files);
    && (count.None? <==> AnyRaises(parse, files) || KeysWhoseLast(ws, NameRaises) != {})
    && (count.Some? ==> count.value == |KeysWhoseLast(ws, Matching)|)
  }

  /** The count against "distinct ids plus events without an id". */
  ghost predicate KeepsPromise(parse: string -> Option<Json>, files: seq<File>, count: nat) {
    var ws := AllWrites(parse, files);
    var promised := |MatchingIds(ws)| + MatchingWithoutId(ws);
    count <= promised && (count == promised <==> MatchingIds(ws) !! MatchingPlaces(ws) && NoneDisplaced(ws))
  }

  lemma {:induction false} DictionaryIsLast(ws: seq<Write>, p: Json -> bool, k: Json)
    ensures k in KeysWhoseLast(ws, p) <==> k in Dictionary(map[], ws) && p(Dictionary(map[], ws)[k])
  {
    if ws != [] {
      DictionaryIsLast(ws[..|ws| - 1], p, k);
    }
  }

  lemma PassOfDictionary(ws: seq<Write>)
    ensures Found(Dictionary(map[], ws)) == KeysWhoseLast(ws, Matching)
    ensures (exists k :: k in Dictionary(map[], ws) && NameRaises(Dictionary(map[], ws)[k]))
            <==> KeysWhoseLast(ws, NameRaises) != {}
  {
    var uses := Dictionary(map[], ws);
    forall k ensures k in Found(uses) <==> k in KeysWhoseLast(ws, Matching) {
      DictionaryIsLast(ws, Matching, k);
    }
    if k :| k in uses && NameRaises(uses[k]) {
      DictionaryIsLast(ws, NameRaises, k);
    }
    if k :| k in KeysWhoseLast(ws, NameRaises) {
      DictionaryIsLast(ws, NameRaises, k);
    }
  }

  lemma AnswerKeepsPromise(parse: string -> Option<Json>, files: seq<File>, count: Option<nat>)
    requires PassAnswers(parse, files, count) && count.Some? && DistinctPaths(files)
    ensures KeepsPromise(parse, files, count.value)
  {
    PassOfDictionary(AllWrites(parse, files));
    CountExact(parse, files);
  }

  lemma Worth(parse: string -> Option<Json>, files: seq<File>, count: Option<nat>)
    requires PassAnswers(parse, files, count)
    ensures count.Some? && DistinctPaths(files) ==> KeepsPromise(parse, files, count.value)
  {
    if count.Some? && DistinctPaths(files) {
      AnswerKeepsPromise(parse, files, count);
    }
  }

  /** One pass of `count_ministr_calls`; `None` when an id or a name of the wrong type raises. */
  method CountPass(parse: string -> Option<Json>, files: seq<File>) returns (count: Option<nat>)
    ensures PassAnswers(parse, files, count)
    ensures count.Some? && DistinctPaths(files) ==> KeepsPromise(parse, files, count.value)
  {
    var uses, _, raised := NewRecords(parse, files);
    PassOfDictionary(AllWrites(parse, files));
    count := if raised || exists k :: k in uses && NameRaises(uses[k]) then None else Some(|Found(uses)|);
    Worth(parse, files, count);
  }

  /** Poll i found nothing before the deadline. */
  ghost predicate PollsAgain(parse: string -> Option<Json>, files: seq<seq<File>>, clock: seq<real>, deadline: real,
                             i: nat)
    requires i < |files| == |clock|
  {
    PassAnswers(parse, files[i], Some(0)) && clock[i] < deadline
  }

  /** Whatever answers poll i is right for it. */
  ghost predicate Judges(parse: string -> Option<Json>, files: seq<seq<File>>, right: (nat, Option<nat>) -> bool) {
    forall i: nat, c {:trigger PassAnswers(parse, files[i], c)} ::
      i < |files| && PassAnswers(parse, files[i], c) ==> right(i, c)
  }

  method PassAt(parse: string -> Option<Json>, files: seq<seq<File>>, i: nat,
                ghost right: (nat, Option<nat>) -> bool)
    returns (count: Option<nat>)
    requires i < |files| && Judges(parse, files, right)
    ensures right(i, count)
  {
    count := CountPass(parse, files[i]);
  }

  /** The loop of `count_ministr_calls`: poll until a call shows or the deadline passes. Poll i sees `files[i]`, and
      the clock reads `clock[i]` after it; the deadline is reached by the last poll at the latest. */
  method Poll(parse: string -> Option<Json>, files: seq<seq<File>>, clock: seq<real>, deadline: real,
              ghost right: (nat, Option<nat>) -> bool)
    returns (count: Option<nat>, poll: nat)
    requires |files| == |clock| > 0 && clock[|clock| - 1] >= deadline && Judges(parse, files, right)
    ensures poll < |files| && right(poll, count)
    ensures forall i: nat :: i < poll ==> right(i, Some(0)) && clock[i] < deadline
    ensures count == Some(0) ==> clock[poll] >= deadline
  {
    poll := 0;
    while true
      invariant poll < |files|
      invariant forall i: nat :: i < poll ==> right(i, Some(0)) && clock[i] < deadline
      decreases |files| - poll
    {
      count := PassAt(parse, files, poll, right);
      if count != Some(0) || clock[poll] >= deadline {
        return;
      }
      poll := poll + 1;
    }
  }

  /** `count_ministr_calls`, with what its answer is worth. */
  method CountCalls(parse: string -> Option<Json>, files: seq<seq<File>>, clock: seq<real>, deadline: real)
    returns (count: Option<nat>, poll: nat)
    requires |files| == |clock| > 0 && clock[|clock| - 1] >= deadline
    ensures poll < |files| && PassAnswers(parse, files[poll], count)
    ensures count.Some? && DistinctPaths(files[poll]) ==> KeepsPromise(parse, files[poll], count.value)
    ensures forall i: nat :: i < poll ==> PollsAgain(parse, files, clock, deadline, i)
    ensures count == Some(0) ==> clock[poll] >= deadline
  {
    ghost var right := (i: nat, c: Option<nat>) => i < |files| && PassAnswers(parse, files[i], c);
    count, poll := Poll(parse, files, clock, deadline, right);
    forall i: nat | i < poll ensures PollsAgain(parse, files, clock, deadline, i) {
      assert right(i, Some(0));
    }
    assert right(poll, count);
    Worth(parse, files[poll], count);
  }

  // ---------------------------------------------------------------- what the count is

  lemma {:induction false} DictionaryHolds(ws: seq<Write>, k: Json)
    ensures k in Dictionary(map[], ws) <==> exists i :: 0 <= i < |ws| && WriteKey(ws[i]) == k
    ensures k in Dictionary(map[], ws) ==>
              exists i :: 0 <= i < |ws| && WriteKey(ws[i]) == k && ws[i].event == Dictionary(map[], ws)[k]
  {
    if ws != [] {
      var init, w := ws[..|ws| - 1], ws[|ws| - 1];
      DictionaryHolds(init, k);
      assert forall i :: 0 <= i < |init| ==> init[i] == ws[i];
      if WriteKey(w) == k {
        assert WriteKey(ws[|ws| - 1]) == k;
      }
    }
  }

  /** No later write goes under the key of write j. */
  ghost predicate LastUnderKey(ws: seq<Write>, j: nat) {
    j < |ws| && forall k: nat :: j < k < |ws| ==> !SameKey(ws, j, k)
  }

  predicate SameKey(ws: seq<Write>, j: nat, k: nat)
    requires j < |ws| && k < |ws|
  {
    WriteKey(ws[j]) == WriteKey(ws[k])
  }

  /** No matching write is displaced: the last write under its key matches too. */
  ghost predicate NoneDisplaced(ws: seq<Write>) {
    forall i: nat, j: nat :: !Displaced(ws, i, j)
  }

  ghost predicate Displaced(ws: seq<Write>, i: nat, j: nat) {
    i < |ws| && LastUnderKey(ws, j) && SameKey(ws, i, j) && Matching(ws[i].event) && !Matching(ws[j].event)
  }

  /** The dictionary holds the last write under each key. */
  lemma {:induction false} DictionaryHoldsLast(ws: seq<Write>, j: nat)
    requires LastUnderKey(ws, j)
    ensures WriteKey(ws[j]) in Dictionary(map[], ws) && Dictionary(map[], ws)[WriteKey(ws[j])] == ws[j].event
  {
    var init := ws[..|ws| - 1];
    if j < |init| {
      assert !SameKey(ws, j, |ws| - 1);
      forall k: nat | j < k < |init| ensures !SameKey(init, j, k) {
        assert !SameKey(ws, j, k);
      }
      assert init[j] == ws[j];
      DictionaryHoldsLast(init, j);
    }
  }

  lemma {:induction false} LastWrite(ws: seq<Write>, i: nat) returns (j: nat)
    requires i < |ws|
    ensures LastUnderKey(ws, j) && WriteKey(ws[j]) == WriteKey(ws[i])
    decreases |ws| - i
  {
    if k: nat :| i < k < |ws| && SameKey(ws, i, k) {
      j := LastWrite(ws, k);
    } else {
      j := i;
    }
  }

  /** Distinct ids among the matching events that have one. */
  function MatchingIds(ws: seq<Write>): set<Json> {
    if ws == [] then {} else
      var w := ws[|ws| - 1];
      MatchingIds(ws[..|ws| - 1]) + if HasId(w) && Matching(w.event) then {WriteKey(w)} else {}
  }

  /** Place keys of the matching events without an id. */
  function MatchingPlaces(ws: seq<Write>): set<Json> {
    if ws == [] then {} else
      var w := ws[|ws| - 1];
      MatchingPlaces(ws[..|ws| - 1]) + if !HasId(w) && Matching(w.event) then {WriteKey(w)} else {}
  }

  /** How many matching events have no id. */
  function MatchingWithoutId(ws: seq<Write>): nat {
    if ws == [] then 0 else
      var w := ws[|ws| - 1];
      MatchingWithoutId(ws[..|ws| - 1]) + if !HasId(w) && Matching(w.event) then 1 else 0
  }

  lemma {:induction false} MatchingKeys(ws: seq<Write>, k: Json)
    ensures k in MatchingIds(ws)
            <==> exists i :: 0 <= i < |ws| && HasId(ws[i]) && Matching(ws[i].event) && WriteKey(ws[i]) == k
    ensures k in MatchingPlaces(ws)
            <==> exists i :: 0 <= i < |ws| && !HasId(ws[i]) && Matching(ws[i].event) && WriteKey(ws[i]) == k
  {
    if ws != [] {
      var init, w := ws[..|ws| - 1], ws[|ws| - 1];
      MatchingKeys(init, k);
      assert forall i :: 0 <= i < |init| ==> init[i] == ws[i];
      assert w == ws[|ws| - 1];
    }
  }

  lemma FoundWithin(ws: seq<Write>)
    ensures Found(Dictionary(map[], ws)) <= MatchingIds(ws) + MatchingPlaces(ws)
  {
    forall k | k in Found(Dictionary(map[], ws)) ensures k in MatchingIds(ws) + MatchingPlaces(ws) {
      DictionaryHolds(ws, k);
      MatchingKeys(ws, k);
    }
  }

  /** The matching keys are all found if and only if no matching write is displaced. */
  lemma FoundIsMatching(ws: seq<Write>)
    ensures Found(Dictionary(map[], ws)) == MatchingIds(ws) + MatchingPlaces(ws) <==> NoneDisplaced(ws)
  {
    var uses, keys := Dictionary(map[], ws), MatchingIds(ws) + MatchingPlaces(ws);
    FoundWithin(ws);
    if NoneDisplaced(ws) {
      forall k | k in keys ensures k in Found(uses) {
        MatchingKeys(ws, k);
        var i: nat :| i < |ws| && Matching(ws[i].event) && WriteKey(ws[i]) == k;
        var j := LastWrite(ws, i);
        DictionaryHoldsLast(ws, j);
        assert !Displaced(ws, i, j);
      }
    }
    if Found(uses) == keys {
      forall i: nat, j: nat ensures !Displaced(ws, i, j) {
        if Displaced(ws, i, j) {
          MatchingKeys(ws, WriteKey(ws[i]));
          DictionaryHoldsLast(ws, j);
        }
      }
    }
  }

  // ---------------------------------------------------------------- places identify events without ids

  lemma LastSegment(x: string, e: string, y: string, f: string)
    requires x + ":" + e == y + ":" + f
    requires (forall i :: 0 <= i < |e| ==> e[i] != ':') && (forall i :: 0 <= i < |f| ==> f[i] != ':')
    ensures x == y && e == f
  {
    var s, t := x + ":" + e, y + ":" + f;
    assert s[|x|] == ':' && t[|y|] == ':';
    assert forall i :: |x| < i < |s| ==> s[i] == e[i - |x| - 1];
    assert forall i :: |y| < i < |t| ==> t[i] == f[i - |y| - 1];
    assert |x| == |y|;
    assert s[..|x|] == x && t[..|y|] == y && s[|x| + 1..] == e && t[|y| + 1..] == f;
  }

  lemma DigitsInjective(m: nat, n: nat)
    requires Digits(m) == Digits(n)
    ensures m == n
  {
    ValueOfDigits(m);
    ValueOfDigits(n);
  }

  lemma DigitsHaveNoColon(n: nat)
    ensures forall i :: 0 <= i < |Digits(n)| ==> Digits(n)[i] != ':'
  {
  }

  /** Different places have different keys, whatever colons the paths hold. */
  lemma PlaceKeyInjective(a: Place, b: Place)
    requires PlaceKey(a) == PlaceKey(b)
    ensures a == b
  {
    DigitsHaveNoColon(a.line);
    DigitsHaveNoColon(b.line);
    DigitsHaveNoColon(a.ordinal);
    DigitsHaveNoColon(b.ordinal);
    LastSegment(a.path + ":" + Digits(a.line), Digits(a.ordinal), b.path + ":" + Digits(b.line), Digits(b.ordinal));
    LastSegment(a.path, Digits(a.line), b.path, Digits(b.line));
    DigitsInjective(a.line, b.line);
    DigitsInjective(a.ordinal, b.ordinal);
  }

  ghost predicate DistinctPlaces(ws: seq<Write>) {
    forall i, j :: 0 <= i < j < |ws| ==> ws[i].at != ws[j].at
  }

  lemma {:induction false} FilePlaces(parse: string -> Option<Json>, path: string, lines: seq<string>)
    ensures DistinctPlaces(FileWrites(parse, path, lines))
    ensures forall i :: 0 <= i < |FileWrites(parse, path, lines)| ==>
              FileWrites(parse, path, lines)[i].at.path == path && FileWrites(parse, path, lines)[i].at.line <= |lines|
  {
    if lines != [] {
      FilePlaces(parse, path, lines[..|lines| - 1]);
    }
  }

  ghost predicate DistinctPaths(files: seq<File>) {
    forall i, j :: 0 <= i < j < |files| ==> files[i].path != files[j].path
  }

  lemma {:induction false} AllPlaces(parse: string -> Option<Json>, files: seq<File>)
    requires DistinctPaths(files)
    ensures DistinctPlaces(AllWrites(parse, files))
    ensures forall i :: 0 <= i < |AllWrites(parse, files)| ==>
              exists k :: 0 <= k < |files| && AllWrites(parse, files)[i].at.path == files[k].path
  {
    if files != [] {
      var init, f := files[..|files| - 1], files[|files| - 1];
      AllPlaces(parse, init);
      FilePlaces(parse, f.path, NewLines(f.content, f.checkpoint));
      var a, b := AllWrites(parse, init), FileWrites(parse, f.path, NewLines(f.content, f.checkpoint));
      assert AllWrites(parse, files) == a + b;
      PlacesConcat(a, b, f.path, init);
      forall i | 0 <= i < |a + b| ensures exists k :: 0 <= k < |files| && (a + b)[i].at.path == files[k].path {
        if i < |a| {
          var k :| 0 <= k < |init| && a[i].at.path == init[k].path;
          assert files[k] == init[k];
        } else {
          assert (a + b)[i].at.path == files[|files| - 1].path;
        }
      }
    }
  }

  lemma PlacesConcat(a: seq<Write>, b: seq<Write>, path: string, files: seq<File>)
    requires DistinctPlaces(a) && DistinctPlaces(b)
    requires forall i :: 0 <= i < |a| ==> exists k :: 0 <= k < |files| && a[i].at.path == files[k].path
    requires forall i :: 0 <= i < |b| ==> b[i].at.path == path
    requires forall k :: 0 <= k < |files| ==> files[k].path != path
    ensures DistinctPlaces(a + b)
  {
    forall i, j | 0 <= i < j < |a + b| ensures (a + b)[i].at != (a + b)[j].at {
      if i < |a| <= j {
        assert (a + b)[i] == a[i] && (a + b)[j] == b[j - |a|];
      }
    }
  }

  lemma PlaceIsNew(init: seq<Write>, w: Write)
    requires DistinctPlaces(init + [w]) && !HasId(w)
    ensures WriteKey(w) !in MatchingPlaces(init)
  {
    MatchingKeys(init, WriteKey(w));
    forall i | 0 <= i < |init| && !HasId(init[i]) ensures WriteKey(init[i]) != WriteKey(w) {
      assert (init + [w])[i].at != (init + [w])[|init|].at;
      if PlaceKey(init[i].at) == PlaceKey(w.at) {
        PlaceKeyInjective(init[i].at, w.at);
      }
    }
  }

  lemma {:induction false} PlacesCount(ws: seq<Write>)
    requires DistinctPlaces(ws)
    ensures |MatchingPlaces(ws)| == MatchingWithoutId(ws)
  {
    if ws != [] {
      var init, w := ws[..|ws| - 1], ws[|ws| - 1];
      assert ws == init + [w];
      PlacesCount(init);
      if !HasId(w) {
        PlaceIsNew(init, w);
      }
    }
  }

  /** Main theorem, with its exact condition: the count is the number of distinct ids of matching events
      plus the matching events without an id, if and only if no such id spells the place of such an event
      and no matching event is displaced by a last one under its key that does not match. It is never more. */
  lemma CountExact(parse: string -> Option<Json>, files: seq<File>)
    requires DistinctPaths(files)
    ensures var ws := AllWrites(parse, files);
            var count, promised := |Found(Dictionary(map[], ws))|, |MatchingIds(ws)| + MatchingWithoutId(ws);
            && count <= promised
            && (count == promised <==> MatchingIds(ws) !! MatchingPlaces(ws) && NoneDisplaced(ws))
  {
    var ws := AllWrites(parse, files);
    FoundWithin(ws);
    FoundIsMatching(ws);
    AllPlaces(parse, files);
    PlacesCount(ws);
    UnionSize(MatchingIds(ws), MatchingPlaces(ws));
    SubsetSize(Found(Dictionary(map[], ws)), MatchingIds(ws) + MatchingPlaces(ws));
  }

  lemma UnionSize(a: set<Json>, b: set<Json>)
    ensures |a + b| <= |a| + |b| && (|a + b| == |a| + |b| <==> a !! b)
  {
    assert |a + b| == |a| + |b| - |a * b|;
    if a !! b {
      assert a * b == {};
    } else {
      var x :| x in a && x in b;
      assert x in a * b;
    }
  }

  // ---------------------------------------------------------------- two files where the count falls short

  /** A tool use with a name and an id. */
  function Use(name: string, id: string): Json {
    Obj(["type", "id", "name"], [Str("tool_use"), Str(id), Str(name)])
  }

  /** A tool use of the older format, without an id. */
  function OldUse(name: string): Json {
    Obj(["type", "name"], [Str("tool_use"), Str(name)])
  }

  lemma NamesDiffer()
    ensures "type" != "name" && "id" != "name" && "type" != "id"
  {
    assert "type"[0] != "name"[0];
  }

  lemma UseFields(name: string, id: string)
    requires id != []
    ensures var v := Use(name, id);
            && IsToolUse(v) && ExplicitId(v) == Some(Str(id))
            && (Matching(v) <==> CALL_PREFIX <= name)
  {
    var v := Use(name, id);
    NamesDiffer();
    assert v.keys[1..] == ["id", "name"] && v.values[1..] == [Str(id), Str(name)];
    assert v.keys[1..][1..] == ["name"] && v.values[1..][1..] == [Str(name)];
    assert FindKey(["name"], [Str(name)], "name") == Some(Str(name));
    assert FindKey(v.keys[1..], v.values[1..], "name") == Some(Str(name));
    assert FindKey(v.keys[1..], v.values[1..], "id") == Some(Str(id));
  }

  lemma OldUseFields(name: string)
    ensures var v := OldUse(name);
            && IsToolUse(v) && ExplicitId(v) == None
            && (Matching(v) <==> CALL_PREFIX <= name)
  {
    var v := OldUse(name);
    NamesDiffer();
    assert v.keys[1..] == ["name"] && v.values[1..] == [Str(name)];
    assert v.keys[1..][1..] == [];
    assert FindKey(["name"], [Str(name)], "name") == Some(Str(name));
    assert FindKey(["name"], [Str(name)], "id") == None;
  }

  /** A tool result that answers the use with this id. */
  function ResultOf(id: string): Json {
    Obj(["type", "tool_use_id"], [Str("tool_result"), Str(id)])
  }

  /** Such an event is recorded under the id it answers, and nothing else about it is. */
  lemma ResultIsRecorded(results: map<Json, Json>, id: string)
    requires id != []
    ensures ResultsAfter(results, [ResultOf(id)]) == results[Str(id) := ResultOf(id)]
    ensures !IsToolUse(ResultOf(id))
  {
    var v := ResultOf(id);
    assert "type"[0] != "tool_use_id"[1] && |"type"| != |"tool_use_id"| && |"tool_use"| != |"tool_result"|;
    assert v.keys[1..] == ["tool_use_id"] && v.values[1..] == [Str(id)];
    assert FindKey(["tool_use_id"], [Str(id)], "tool_use_id") == Some(Str(id));
    assert [v][..0] == [];
  }

  lemma {:induction false} LeavesWalk(vs: seq<Json>)
    requires forall i :: 0 <= i < |vs| ==> vs[i].Str?
    ensures forall i :: 0 <= i < |WalkAll(vs)| ==> WalkAll(vs)[i].Str?
  {
    if vs != [] { LeavesWalk(vs[1..]); }
  }

  lemma {:induction false} LeavesAddNothing(path: string, line: nat, v: Json, leaves: seq<Json>)
    requires IsToolUse(v) && forall i :: 0 <= i < |leaves| ==> leaves[i].Str?
    ensures UseWrites(path, line, [v] + leaves) == [Write(v, Place(path, line, 1))]
  {
    if leaves == [] {
      assert [v] + leaves == [v] && [v][..0] == [];
    } else {
      var nodes := [v] + leaves;
      LeavesAddNothing(path, line, v, leaves[..|leaves| - 1]);
      assert nodes[..|nodes| - 1] == [v] + leaves[..|leaves| - 1];
    }
  }

  /** A flat tool use on a line of its own makes one write. */
  lemma FlatUse(path: string, line: nat, v: Json)
    requires IsToolUse(v) && forall i :: 0 <= i < |v.values| ==> v.values[i].Str?
    ensures UseWrites(path, line, Walk(v)) == [Write(v, Place(path, line, 1))]
  {
    LeavesWalk(v.values);
    LeavesAddNothing(path, line, v, WalkAll(v.values));
  }

  const FIRST := "1\n"
  const SECOND := "2\n"

  lemma OneLine(line: string)
    requires |line| == 2 && line[0] != '\n' && line[1] == '\n'
    ensures Lines(line) == [line]
  {
    assert line[1..] == "\n";
    assert FirstLine(line) == 2;
    assert line[..2] == line && line[2..] == [];
  }

  lemma TwoLines()
    ensures NewLines(FIRST + SECOND, 0) == [FIRST, SECOND]
  {
    assert (FIRST + SECOND)[0..] == FIRST + SECOND;
    LinesConcat(FIRST, SECOND);
    OneLine(FIRST);
    OneLine(SECOND);
  }

  lemma TwoUses(parse: string -> Option<Json>, v: Json, w: Json)
    requires parse(FIRST) == Some(v) && parse(SECOND) == Some(w) && IsToolUse(v) && IsToolUse(w)
    requires forall i :: 0 <= i < |v.values| ==> v.values[i].Str?
    requires forall i :: 0 <= i < |w.values| ==> w.values[i].Str?
    ensures AllWrites(parse, [File("t", FIRST + SECOND, 0)]) == [Write(v, Place("t", 1, 1)), Write(w, Place("t", 2, 1))]
  {
    TwoLines();
    FlatUse("t", 1, v);
    FlatUse("t", 2, w);
    var lines, files := [FIRST, SECOND], [File("t", FIRST + SECOND, 0)];
    assert lines[..1] == [FIRST] && [FIRST][..0] == [] && files[..0] == [];
    assert FileWrites(parse, "t", [FIRST]) == UseWrites("t", 1, Walk(v));
  }

  lemma TwoWrites(v: Write, w: Write)
    ensures var ws := [v, w];
            && Dictionary(map[], ws) == map[WriteKey(v) := v.event][WriteKey(w) := w.event]
            && MatchingIds(ws) == (if HasId(v) && Matching(v.event) then {WriteKey(v)} else {})
                                  + (if HasId(w) && Matching(w.event) then {WriteKey(w)} else {})
            && MatchingPlaces(ws) == (if !HasId(v) && Matching(v.event) then {WriteKey(v)} else {})
                                     + (if !HasId(w) && Matching(w.event) then {WriteKey(w)} else {})
            && MatchingWithoutId(ws) == (if !HasId(v) && Matching(v.event) then 1 else 0)
                                        + (if !HasId(w) && Matching(w.event) then 1 else 0)
  {
    var ws := [v, w];
    assert ws[..1] == [v] && [v][..0] == [];
    assert Dictionary(map[], [v]) == map[WriteKey(v) := v.event];
    assert MatchingIds([v]) == if HasId(v) && Matching(v.event) then {WriteKey(v)} else {};
    assert MatchingPlaces([v]) == if !HasId(v) && Matching(v.event) then {WriteKey(v)} else {};
    assert MatchingWithoutId([v]) == if !HasId(v) && Matching(v.event) then 1 else 0;
  }

  /** Two writes under one key, the first a call with an id. */
  lemma OneKey(v: Write, w: Write)
    requires WriteKey(v) == WriteKey(w) && HasId(v) && Matching(v.event)
    ensures Found(Dictionary(map[], [v, w])) == if Matching(w.event) then {WriteKey(w)} else {}
    ensures NoneDisplaced([v, w]) <==> Matching(w.event)
  {
    TwoWrites(v, w);
    var ws := [v, w];
    assert LastUnderKey(ws, 1) && ws[0] == v && ws[1] == w;
    assert SameKey(ws, 0, 1) && (Displaced(ws, 0, 1) <==> !Matching(w.event));
    forall i: nat, j: nat | Matching(w.event) ensures !Displaced(ws, i, j) {
    }
  }

  const CALL := "mcp__ministr__x"

  /** A name that is missing is no call, and one that is not a string cannot be tested. */
  lemma NameExact(event: Json)
    requires event.Obj?
    ensures Get(event, "name") == None ==> !Matching(event) && !NameRaises(event)
    ensures Get(event, "name").Some? ==> (NameRaises(event) <==> !Get(event, "name").value.Str?)
  {
  }

  /** The calls that count are those whose name starts with this text. */
  lemma MatchesExactly(name: string, id: string)
    requires id != []
    ensures Matching(Use(name, id)) <==> |name| >= 14 && name[..14] == "mcp__ministr__"
    ensures Matching(OldUse(name)) <==> |name| >= 14 && name[..14] == "mcp__ministr__"
  {
    UseFields(name, id);
    OldUseFields(name);
  }

  /** Mirrors that disagree: a call and a later event under its id that is not one count as none. */
  lemma DisplacedCallIsLost(parse: string -> Option<Json>)
    requires parse(FIRST) == Some(Use(CALL, "a")) && parse(SECOND) == Some(Use("Bash", "a"))
    ensures var ws := AllWrites(parse, [File("t", FIRST + SECOND, 0)]);
            && |Found(Dictionary(map[], ws))| == 0 && |MatchingIds(ws)| == 1 && MatchingWithoutId(ws) == 0
            && MatchingIds(ws) !! MatchingPlaces(ws) && !NoneDisplaced(ws)
  {
    assert CALL[..14] == "mcp__ministr__";
    MatchesExactly(CALL, "a");
    MatchesExactly("Bash", "a");
    UseFields(CALL, "a");
    UseFields("Bash", "a");
    TwoUses(parse, Use(CALL, "a"), Use("Bash", "a"));
    var v, w := Write(Use(CALL, "a"), Place("t", 1, 1)), Write(Use("Bash", "a"), Place("t", 2, 1));
    TwoWrites(v, w);
    OneKey(v, w);
  }

  lemma SpelledPlace()
    ensures PlaceKey(Place("t", 2, 1)) == Str("t:2:1")
  {
    assert Digits(2) == "2" && Digits(1) == "1";
  }

  /** An id that spells the place of an event without one: two calls count as one. */
  lemma SpelledPlaceIsLost(parse: string -> Option<Json>)
    requires parse(FIRST) == Some(Use(CALL, "t:2:1")) && parse(SECOND) == Some(OldUse(CALL))
    ensures var ws := AllWrites(parse, [File("t", FIRST + SECOND, 0)]);
            && |Found(Dictionary(map[], ws))| == 1 && |MatchingIds(ws)| == 1 && MatchingWithoutId(ws) == 1
            && NoneDisplaced(ws) && !(MatchingIds(ws) !! MatchingPlaces(ws))
  {
    assert CALL[..14] == "mcp__ministr__";
    MatchesExactly(CALL, "t:2:1");
    UseFields(CALL, "t:2:1");
    OldUseFields(CALL);
    TwoUses(parse, Use(CALL, "t:2:1"), OldUse(CALL));
    var v, w := Write(Use(CALL, "t:2:1"), Place("t", 1, 1)), Write(OldUse(CALL), Place("t", 2, 1));
    SpelledPlace();
    TwoWrites(v, w);
    OneKey(v, w);
  }

  // ---------------------------------------------------------------- only new lines

  /** The same paths holding only the added text. */
  function AddedOnly(files: seq<File>, added: seq<string>): seq<File>
    requires |files| == |added|
  {
    if files == [] then [] else
      var n := |files| - 1;
      AddedOnly(files[..n], added[..n]) + [File(files[n].path, added[n], 0)]
  }

  ghost predicate GrewBy(f: File, prior: string, added: string) {
    f.content == prior + added && f.checkpoint == |prior|
  }

  /** For files grown since the checkpoint, only the added text counts. */
  lemma {:induction false} OnlyNewLinesCount(parse: string -> Option<Json>, files: seq<File>,
                                             prior: seq<string>, added: seq<string>)
    requires |files| == |prior| == |added|
    requires forall i :: 0 <= i < |files| ==> GrewBy(files[i], prior[i], added[i])
    ensures AllWrites(parse, files) == AllWrites(parse, AddedOnly(files, added))
  {
    if files != [] {
      var n := |files| - 1;
      var fewer := AddedOnly(files[..n], added[..n]);
      OnlyNewLinesCount(parse, files[..n], prior[..n], added[..n]);
      assert GrewBy(files[n], prior[n], added[n]);
      GrownFileReadsNewLines(prior[n], added[n]);
      assert added[n][0..] == added[n];
      assert (fewer + [File(files[n].path, added[n], 0)])[..|fewer|] == fewer;
    }
  }
}
