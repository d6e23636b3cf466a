/** The bounded search for a JSON object inside layers of quoting, and the
    duplicate-free list of changefeed events built with it.  JSON, hexadecimal and
    byte-literal decoding are parameters. */
module JsonUnwrap {
  import opened Sequences
  import opened SqlText

  datatype Option<+T> = None | Some(value: T)

  datatype Json<V> = Object(value: V) | JsonText(text: string) | OtherJson | NotJson

  /** The decoders the search calls; each partial one answers `None` on failure. */
  datatype Decoders<!V> = Decoders(
    hex: string -> Option<string>,
    byteLiteral: string -> Option<string>,
    json: string -> Json<V>,
    unquote: string -> Option<string>)

  const LIMIT := 12

  /** Every doubled double quote becomes a single one. */
  function Undoubled(s: string): string
    decreases |s|
  {
    if |s| >= 2 && s[0] == '"' && s[1] == '"' then ['"'] + Undoubled(s[2..])
    else if s == "" then ""
    else [s[0]] + Undoubled(s[1..])
  }

  predicate HasEscapedQuote(s: string) {
    exists i | 0 <= i < |s| - 1 :: s[i] == '\\' && s[i + 1] == '"'
  }

  function FirstBrace(s: string): (i: nat)
    ensures i <= |s|
  {
    if s == "" || s[0] == '{' then 0 else 1 + FirstBrace(s[1..])
  }

  /** The offset of the last closing brace, or -1. */
  function LastBrace(s: string): (i: int)
    ensures -1 <= i < |s|
  {
    if s == "" then -1 else if s[|s| - 1] == '}' then |s| - 1 else LastBrace(s[..|s| - 1])
  }

  function Optional(o: Option<string>): seq<string> {
    match o case None => [] case Some(s) => [s]
  }

  /** What the search may unwrap from one candidate, in the order it is queued. */
  function Unwrapped<V>(d: Decoders<V>, c: string): seq<string> {
    Optional(d.hex(c))
    + Optional(d.byteLiteral(c))
    + (match d.json(c) case JsonText(t) => [t] case _ => [])
    + (if Undoubled(c) != c then [Undoubled(c)] else [])
    + (if HasEscapedQuote(c) then Optional(d.unquote(c)) else [])
    + (if FirstBrace(c) < |c| && LastBrace(c) > FirstBrace(c) then [c[FirstBrace(c)..LastBrace(c) + 1]] else [])
  }

  /** The search from a queue and the candidates already visited. */
  function Search<V>(d: Decoders<V>, queue: seq<string>, visited: set<string>): Option<V>
    requires |visited| <= LIMIT
    decreases LIMIT - |visited|, |queue|
  {
    if queue == [] || |visited| >= LIMIT then None
    else
      var c := Strip(queue[0]);
      if c == "" || c in visited then Search(d, queue[1..], visited)
      else match d.json(c)
        case Object(v) => Some(v)
        case _ => Search(d, queue[1..] + Unwrapped(d, c), visited + {c})
  }

  function Decoded<V>(d: Decoders<V>, text: string): Option<V> {
    Search(d, [Strip(text)], {})
  }

  /** The candidates a search has visited when it ends. */
  function Examined<V>(d: Decoders<V>, queue: seq<string>, visited: set<string>): (all: set<string>)
    requires |visited| <= LIMIT
    ensures visited <= all && |all| <= LIMIT
    decreases LIMIT - |visited|, |queue|
  {
    if queue == [] || |visited| >= LIMIT then visited
    else
      var c := Strip(queue[0]);
      if c == "" || c in visited then Examined(d, queue[1..], visited)
      else if d.json(c).Object? then visited + {c}
      else Examined(d, queue[1..] + Unwrapped(d, c), visited + {c})
  }

  method DecodeJsonObjectCandidate<V>(d: Decoders<V>, text: string)
    returns (result: Option<V>, ghost examined: set<string>)
    ensures result == Decoded(d, text)
    ensures examined == Examined(d, [Strip(text)], {})
  {
    hide Strip, Unwrapped;
    var queue := [Strip(text)];
    var visited: set<string> := {};
    while queue != [] && |visited| < LIMIT
      invariant |visited| <= LIMIT
      invariant Search(d, queue, visited) == Decoded(d, text)
      invariant Examined(d, queue, visited) == Examined(d, [Strip(text)], {})
      decreases LIMIT - |visited|, |queue|
    {
      var c := Strip(queue[0]);
      queue := queue[1..];
      if c == "" || c in visited { continue; }
      visited := visited + {c};
      if d.json(c).Object? { return Some(d.json(c).value), visited; }
      queue := queue + Unwrapped(d, c);
    }
    return None, visited;
  }

  // ----- the unwrap steps, by positions of the text -----

  predicate DoubledAt(s: string, i: int) {
    0 <= i < |s| - 1 && s[i] == '"' && s[i + 1] == '"'
  }

  ghost predicate HasDoubled(s: string) {
    exists i :: DoubledAt(s, i)
  }

  lemma DoubledLater(s: string)
    requires s != "" && !DoubledAt(s, 0)
    ensures HasDoubled(s) <==> HasDoubled(s[1..])
    ensures forall j: nat :: DoubledAt(s[1..], j) <==> DoubledAt(s, j + 1)
  {
    if i :| DoubledAt(s, i) {
      assert DoubledAt(s[1..], i - 1);
    }
    if i :| DoubledAt(s[1..], i) {
      assert DoubledAt(s, i + 1);
    }
  }

  /** A text without doubled quotes is left alone. */
  lemma {:induction false} UndoubledLeaves(s: string)
    requires !HasDoubled(s)
    ensures Undoubled(s) == s
    decreases |s|
  {
    if s != "" {
      assert !DoubledAt(s, 0);
      DoubledLater(s);
      hide HasDoubled;
      UndoubledLeaves(s[1..]);
      assert [s[0]] + s[1..] == s;
    }
  }

  /** The first pair of quotes becomes one, and what follows the pair is treated alike. */
  lemma {:induction false} UndoubledFirst(s: string, i: nat)
    requires DoubledAt(s, i) && forall j :: 0 <= j < i ==> !DoubledAt(s, j)
    ensures Undoubled(s) == s[..i] + (['"'] + Undoubled(s[i + 2..]))
    decreases |s|
  {
    var rest := ['"'] + Undoubled(s[i + 2..]);
    if i == 0 {
      assert s[..0] + rest == rest;
    } else {
      assert !DoubledAt(s, 0);
      DoubledLater(s);
      UndoubledSteps(s);
      assert forall j :: 0 <= j < i - 1 ==> !DoubledAt(s[1..], j);
      assert |s| >= i + 2;
      hide HasDoubled, DoubledAt, Undoubled;
      UndoubledFirst(s[1..], i - 1);
      assert s[1..][i + 1..] == s[i + 2..];
      assert s[..i] == [s[0]] + s[1..][..i - 1];
      Associative([s[0]], s[1..][..i - 1], rest);
    }
  }

  lemma UndoubledSteps(s: string)
    requires s != "" && !DoubledAt(s, 0)
    ensures Undoubled(s) == [s[0]] + Undoubled(s[1..])
  {
  }

  lemma {:induction false} UndoubledShrinks(s: string)
    ensures |Undoubled(s)| <= |s|
    ensures HasDoubled(s) ==> |Undoubled(s)| < |s|
    decreases |s|
  {
    if DoubledAt(s, 0) {
      UndoubledShrinks(s[2..]);
    } else if s != "" {
      UndoubledShrinks(s[1..]);
      if HasDoubled(s) {
        var i :| DoubledAt(s, i);
        assert DoubledAt(s[1..], i - 1);
      }
    }
  }

  predicate OpensAt(c: string, i: int) {
    0 <= i < |c| && c[i] == '{' && forall k :: 0 <= k < i ==> c[k] != '{'
  }

  predicate ClosesAt(c: string, j: int) {
    0 <= j < |c| && c[j] == '}' && forall k :: j < k < |c| ==> c[k] != '}'
  }

  lemma {:induction false} FirstBraceIsExact(s: string)
    ensures forall i :: OpensAt(s, i) <==> i == FirstBrace(s) < |s|
  {
    if s != "" && s[0] != '{' {
      FirstBraceIsExact(s[1..]);
      forall i ensures OpensAt(s, i) <==> OpensAt(s[1..], i - 1) {
        assert forall k :: 0 < k < |s| ==> s[k] == s[1..][k - 1];
        assert OpensAt(s[1..], i - 1) ==> forall k :: 0 <= k < i - 1 ==> s[1..][k] != '{';
      }
    }
  }

  lemma {:induction false} LastBraceIsExact(s: string)
    ensures forall j :: ClosesAt(s, j) <==> j == LastBrace(s) >= 0
    decreases |s|
  {
    if s != "" && s[|s| - 1] != '}' {
      var front := s[..|s| - 1];
      LastBraceIsExact(front);
      forall j ensures ClosesAt(s, j) <==> ClosesAt(front, j) {
        assert forall k :: 0 <= k < |front| ==> s[k] == front[k];
      }
    }
  }

  /** `e` runs from the first opening to the last closing brace of `c`, both included. */
  ghost predicate BraceSpan(c: string, e: string) {
    exists i, j :: OpensAt(c, i) && ClosesAt(c, j) && i < j && e == c[i..j + 1]
  }

  lemma SpanIsExact(c: string, e: string)
    ensures BraceSpan(c, e) <==>
              FirstBrace(c) < |c| && LastBrace(c) > FirstBrace(c) && e == c[FirstBrace(c)..LastBrace(c) + 1]
  {
    FirstBraceIsExact(c);
    LastBraceIsExact(c);
    hide FirstBrace, LastBrace;
    var i, j := FirstBrace(c), LastBrace(c);
    if i < |c| && j > i && e == c[i..j + 1] {
      assert OpensAt(c, i) && ClosesAt(c, j);
    }
    hide OpensAt, ClosesAt;
  }

  lemma InSum<T>(a: seq<T>, b: seq<T>, x: T)
    ensures x in a + b <==> x in a || x in b
  {
  }

  /** What one candidate unwraps to, and nothing else. */
  lemma UnwrapIsExact<V>(d: Decoders<V>, c: string, e: string)
    ensures e in Unwrapped(d, c) <==>
              || d.hex(c) == Some(e)
              || d.byteLiteral(c) == Some(e)
              || d.json(c) == JsonText(e)
              || (HasDoubled(c) && e == Undoubled(c))
              || (HasEscapedQuote(c) && d.unquote(c) == Some(e))
              || BraceSpan(c, e)
  {
    SpanIsExact(c, e);
    UndoubledShrinks(c);
    if !HasDoubled(c) {
      UndoubledLeaves(c);
    }
    hide FirstBrace, LastBrace, Undoubled, BraceSpan, HasDoubled, HasEscapedQuote;
    var texts := match d.json(c) case JsonText(t) => [t] case _ => [];
    var undoubled := if Undoubled(c) != c then [Undoubled(c)] else [];
    var unquoted := if HasEscapedQuote(c) then Optional(d.unquote(c)) else [];
    var span := if FirstBrace(c) < |c| && LastBrace(c) > FirstBrace(c) then [c[FirstBrace(c)..LastBrace(c) + 1]] else [];
    var hex, bytes := Optional(d.hex(c)), Optional(d.byteLiteral(c));
    assert Unwrapped(d, c) == hex + bytes + texts + undoubled + unquoted + span;
    InSum(hex + bytes + texts + undoubled + unquoted, span, e);
    InSum(hex + bytes + texts + undoubled, unquoted, e);
    InSum(hex + bytes + texts, undoubled, e);
    InSum(hex + bytes, texts, e);
    InSum(hex, bytes, e);
    hide Unwrapped;
  }

  /** The order in which steps are queued. */
  lemma UnwrapOrder<V>(d: Decoders<V>, c: string)
    ensures var hex, bytes := |Optional(d.hex(c))|, |Optional(d.byteLiteral(c))|;
            var text := if d.json(c).JsonText? then 1 else 0;
            var single := if Undoubled(c) != c then 1 else 0;
            var plain := if HasEscapedQuote(c) then |Optional(d.unquote(c))| else 0;
            var steps := Unwrapped(d, c);
            && (hex == 1 ==> |steps| > 0 && Some(steps[0]) == d.hex(c))
            && (bytes == 1 ==> |steps| > hex && Some(steps[hex]) == d.byteLiteral(c))
            && (text == 1 ==> |steps| > hex + bytes && JsonText(steps[hex + bytes]) == d.json(c))
            && (single == 1 ==> |steps| > hex + bytes + text && steps[hex + bytes + text] == Undoubled(c))
            && (plain == 1 ==> |steps| > hex + bytes + text + single
                               && Some(steps[hex + bytes + text + single]) == d.unquote(c))
  {
    hide Undoubled, HasEscapedQuote, FirstBrace, LastBrace;
  }

  // ----- what the search can reach -----

  /** A chain of unwrap steps from `root`, none of them through an object. */
  ghost predicate Chain<V>(d: Decoders<V>, root: string, path: seq<string>) {
    && path != [] && path[0] == root
    && (forall i :: 0 <= i < |path| ==> path[i] != "")
    && (forall i :: 0 <= i < |path| - 1 ==> !d.json(path[i]).Object? && StepsTo(d, path[i], path[i + 1]))
  }

  ghost predicate StepsTo<V>(d: Decoders<V>, a: string, b: string) {
    exists e :: e in Unwrapped(d, a) && Strip(e) == b
  }

  ghost predicate Reachable<V>(d: Decoders<V>, root: string, s: string) {
    exists path :: Chain(d, root, path) && path[|path| - 1] == s
  }

  lemma ReachableStep<V>(d: Decoders<V>, root: string, a: string, b: string)
    requires Reachable(d, root, a) && !d.json(a).Object? && StepsTo(d, a, b) && b != ""
    ensures Reachable(d, root, b)
  {
    hide StepsTo;
    var path :| Chain(d, root, path) && path[|path| - 1] == a;
    var longer := path + [b];
    assert forall i :: 0 <= i < |path| ==> longer[i] == path[i];
    assert Chain(d, root, longer);
    assert longer[|longer| - 1] == b;
  }

  /** Everything still queued leads, once stripped, to something reachable. */
  ghost predicate QueueReachable<V>(d: Decoders<V>, root: string, queue: seq<string>) {
    forall q :: q in queue && Strip(q) != "" ==> Reachable(d, root, Strip(q))
  }

  ghost predicate VisitedReachable<V>(d: Decoders<V>, root: string, visited: set<string>) {
    forall v :: v in visited ==> Reachable(d, root, v) && !d.json(v).Object?
  }

  /** What has been visited leads only to what is visited or still queued. */
  ghost predicate Expanded<V>(d: Decoders<V>, queue: seq<string>, visited: set<string>) {
    forall v, e :: v in visited && e in Unwrapped(d, v) ==> Strip(e) == "" || Strip(e) in visited || e in queue
  }

  lemma {:induction false} SearchIsSound<V>(d: Decoders<V>, root: string, queue: seq<string>, visited: set<string>)
    requires |visited| <= LIMIT && QueueReachable(d, root, queue) && VisitedReachable(d, root, visited)
    ensures Search(d, queue, visited).Some? ==>
              exists s :: Reachable(d, root, s) && d.json(s) == Object(Search(d, queue, visited).value)
    decreases LIMIT - |visited|, |queue|
  {
    if queue != [] && |visited| < LIMIT {
      var c := Strip(queue[0]);
      assert queue[0] in queue;
      assert QueueReachable(d, root, queue[1..]);
      if c == "" || c in visited {
        SearchIsSound(d, root, queue[1..], visited);
      } else if !d.json(c).Object? {
        QueueStaysReachable(d, root, queue[1..], c);
        SearchIsSound(d, root, queue[1..] + Unwrapped(d, c), visited + {c});
      }
    }
  }

  lemma QueueStaysReachable<V>(d: Decoders<V>, root: string, queue: seq<string>, c: string)
    requires QueueReachable(d, root, queue) && Reachable(d, root, c) && !d.json(c).Object?
    ensures QueueReachable(d, root, queue + Unwrapped(d, c))
  {
    forall q | q in queue + Unwrapped(d, c) && Strip(q) != "" ensures Reachable(d, root, Strip(q)) {
      if q in Unwrapped(d, c) {
        assert StepsTo(d, c, Strip(q));
        ReachableStep(d, root, c, Strip(q));
      }
    }
  }

  /** An unsuccessful search met the limit, or nothing reachable is an object. */
  lemma {:induction false} SearchIsComplete<V>(d: Decoders<V>, root: string, queue: seq<string>, visited: set<string>)
    requires |visited| <= LIMIT && QueueReachable(d, root, queue) && VisitedReachable(d, root, visited)
    requires Expanded(d, queue, visited)
    requires root == "" || root in visited || exists q :: q in queue && Strip(q) == root
    ensures Search(d, queue, visited).None? ==>
              |Examined(d, queue, visited)| == LIMIT || forall s :: Reachable(d, root, s) ==> !d.json(s).Object?
    ensures Search(d, queue, visited).None? ==> VisitedReachable(d, root, Examined(d, queue, visited))
    decreases LIMIT - |visited|, |queue|
  {
    hide Strip, Unwrapped, Reachable, Expanded;
    if |visited| < LIMIT && queue == [] {
      ExhaustedSearch(d, root, visited);
    } else if |visited| < LIMIT {
      var c := Strip(queue[0]);
      assert queue[0] in queue;
      assert QueueReachable(d, root, queue[1..]);
      assert queue == [queue[0]] + queue[1..];
      if c == "" || c in visited {
        ExpandedDrop(d, queue, visited);
        SearchIsComplete(d, root, queue[1..], visited);
      } else if !d.json(c).Object? {
        var rest := queue[1..] + Unwrapped(d, c);
        QueueStaysReachable(d, root, queue[1..], c);
        ExpandedStep(d, queue, visited, c);
        RootStays(root, queue, Unwrapped(d, c), visited);
        SearchIsComplete(d, root, rest, visited + {c});
      }
    }
  }

  lemma ExhaustedSearch<V>(d: Decoders<V>, root: string, visited: set<string>)
    requires VisitedReachable(d, root, visited) && Expanded(d, [], visited) && (root == "" || root in visited)
    ensures forall s :: Reachable(d, root, s) ==> !d.json(s).Object?
  {
    forall s | Reachable(d, root, s) ensures s in visited {
      var path :| Chain(d, root, path) && path[|path| - 1] == s;
      ChainStaysVisited(d, root, path, visited, |path| - 1);
    }
  }

  lemma ExpandedDrop<V>(d: Decoders<V>, queue: seq<string>, visited: set<string>)
    requires queue != [] && Expanded(d, queue, visited)
    requires Strip(queue[0]) == "" || Strip(queue[0]) in visited
    ensures Expanded(d, queue[1..], visited)
  {
    hide Strip, Unwrapped;
    assert queue == [queue[0]] + queue[1..];
  }

  lemma ExpandedStep<V>(d: Decoders<V>, queue: seq<string>, visited: set<string>, c: string)
    requires queue != [] && Expanded(d, queue, visited) && c == Strip(queue[0])
    ensures Expanded(d, queue[1..] + Unwrapped(d, c), visited + {c})
  {
    hide Strip, Unwrapped;
    assert queue == [queue[0]] + queue[1..];
  }

  lemma RootStays(root: string, queue: seq<string>, more: seq<string>, visited: set<string>)
    requires queue != []
    requires root == "" || root in visited || exists q :: q in queue && Strip(q) == root
    ensures root == "" || root in visited + {Strip(queue[0])} || exists q :: q in queue[1..] + more && Strip(q) == root
  {
    if root != "" && root !in visited {
      var q :| q in queue && Strip(q) == root;
      assert queue == [queue[0]] + queue[1..];
      assert q in queue[1..] ==> q in queue[1..] + more;
    }
  }

  lemma {:induction false} ChainStaysVisited<V>(d: Decoders<V>, root: string, path: seq<string>, visited: set<string>, i: nat)
    requires Chain(d, root, path) && i < |path|
    requires root in visited && Expanded(d, [], visited)
    ensures path[i] in visited
  {
    if i > 0 {
      ChainStaysVisited(d, root, path, visited, i - 1);
      var e :| e in Unwrapped(d, path[i - 1]) && Strip(e) == path[i];
    }
  }

  // ----- nearest first -----

  /** A chain of at most `depth` steps leads from `root` to `s`. */
  ghost predicate Within<V>(d: Decoders<V>, root: string, s: string, depth: int) {
    exists path :: Chain(d, root, path) && path[|path| - 1] == s && |path| <= depth + 1
  }

  /** Breadth first: `now` holds what is `depth` steps away, `next` what is one further.
      Everything nearer has been visited. */
  ghost predicate Layered<V>(
      d: Decoders<V>, root: string, now: seq<string>, next: seq<string>, visited: set<string>, depth: nat) {
    && (forall q :: q in now && Strip(q) != "" ==> Within(d, root, Strip(q), depth))
    && (forall q :: q in next && Strip(q) != "" ==> Within(d, root, Strip(q), depth + 1))
    && (forall v :: v in visited ==> Within(d, root, v, depth) && !d.json(v).Object?)
    && (forall v, e :: v in visited && e in Unwrapped(d, v) ==>
          Strip(e) == "" || Strip(e) in visited || e in now || e in next)
    && (forall s :: Within(d, root, s, depth) ==> s in visited || exists q :: q in now && Strip(q) == s)
    && (forall s :: Within(d, root, s, depth - 1) ==> s in visited)
  }

  lemma StepFurther<V>(d: Decoders<V>, root: string, a: string, b: string, depth: nat)
    requires Within(d, root, a, depth) && !d.json(a).Object? && StepsTo(d, a, b) && b != ""
    ensures Within(d, root, b, depth + 1)
  {
    hide StepsTo;
    var path :| Chain(d, root, path) && path[|path| - 1] == a && |path| <= depth + 1;
    var longer := path + [b];
    assert forall i :: 0 <= i < |path| ==> longer[i] == path[i];
    assert Chain(d, root, longer) && longer[|longer| - 1] == b;
  }

  /** What is within `depth + 1` steps is near, or one step from something near. */
  lemma LastStep<V>(d: Decoders<V>, root: string, s: string, depth: nat) returns (a: string)
    requires Within(d, root, s, depth + 1)
    ensures s != ""
    ensures Within(d, root, s, depth) || (Within(d, root, a, depth) && !d.json(a).Object? && StepsTo(d, a, s))
  {
    hide StepsTo;
    a := "";
    var path :| Chain(d, root, path) && path[|path| - 1] == s && |path| <= depth + 2;
    if |path| == depth + 2 {
      var shorter := path[..|path| - 1];
      a := shorter[|shorter| - 1];
      assert Chain(d, root, shorter);
    }
  }

  /** When a layer is used up the next one takes its place. */
  lemma NextLayer<V>(d: Decoders<V>, root: string, next: seq<string>, visited: set<string>, depth: nat)
    requires Layered(d, root, [], next, visited, depth)
    ensures Layered(d, root, next, [], visited, depth + 1)
  {
    forall s | Within(d, root, s, depth + 1) ensures s in visited || exists q :: q in next && Strip(q) == s {
      var a := LastStep(d, root, s, depth);
      if !Within(d, root, s, depth) {
        var e :| e in Unwrapped(d, a) && Strip(e) == s;
      }
    }
    forall s | Within(d, root, s, depth) ensures Within(d, root, s, depth + 1) {}
  }

  lemma DropFromLayer<V>(
      d: Decoders<V>, root: string, now: seq<string>, next: seq<string>, visited: set<string>, depth: nat)
    requires now != [] && Layered(d, root, now, next, visited, depth)
    requires Strip(now[0]) == "" || Strip(now[0]) in visited
    ensures Layered(d, root, now[1..], next, visited, depth)
  {
    hide Strip, Unwrapped;
    assert now == [now[0]] + now[1..];
    forall s | Within(d, root, s, depth) ensures s in visited || exists q :: q in now[1..] && Strip(q) == s {
      WithinIsFilled(d, root, s, depth);
    }
  }

  lemma WithinIsFilled<V>(d: Decoders<V>, root: string, s: string, depth: int)
    requires Within(d, root, s, depth)
    ensures s != ""
  {
  }

  /** What a visited candidate unwraps to is at most one step further. */
  lemma VisitReaches<V>(d: Decoders<V>, root: string, c: string, depth: nat)
    requires c != "" && Within(d, root, c, depth) && !d.json(c).Object?
    ensures forall q :: q in Unwrapped(d, c) && Strip(q) != "" ==> Within(d, root, Strip(q), depth + 1)
  {
    forall q | q in Unwrapped(d, c) && Strip(q) != "" ensures Within(d, root, Strip(q), depth + 1) {
      assert StepsTo(d, c, Strip(q));
      StepFurther(d, root, c, Strip(q), depth);
    }
  }

  lemma VisitInLayer<V>(
      d: Decoders<V>, root: string, now: seq<string>, next: seq<string>, visited: set<string>, depth: nat)
    requires now != [] && Layered(d, root, now, next, visited, depth)
    requires Strip(now[0]) != "" && !d.json(Strip(now[0])).Object?
    ensures Layered(d, root, now[1..], next + Unwrapped(d, Strip(now[0])), visited + {Strip(now[0])}, depth)
  {
    hide Strip, Unwrapped, Within;
    var c := Strip(now[0]);
    assert now[0] in now;
    VisitReaches(d, root, c, depth);
    assert now == [now[0]] + now[1..];
    var later := next + Unwrapped(d, c);
    forall v, e | v in visited + {c} && e in Unwrapped(d, v)
      ensures Strip(e) == "" || Strip(e) in visited + {c} || e in now[1..] || e in later
    {
      if v == c {
        assert e in later;
      } else if e in now && e !in now[1..] {
        assert e == now[0];
      }
    }
    forall s | Within(d, root, s, depth) ensures s in visited + {c} || exists q :: q in now[1..] && Strip(q) == s {
      if s !in visited {
        var q :| q in now && Strip(q) == s;
        assert q == now[0] || q in now[1..];
      }
    }
  }

  /** The search finds an object that no other reachable object is nearer than. */
  lemma {:induction false} NearestFirst<V>(
      d: Decoders<V>, root: string, now: seq<string>, next: seq<string>, visited: set<string>, depth: nat)
    requires |visited| <= LIMIT && Layered(d, root, now, next, visited, depth)
    ensures Search(d, now + next, visited).Some? ==>
              exists s, n: nat :: Within(d, root, s, n) && d.json(s) == Object(Search(d, now + next, visited).value)
                                  && forall t :: Within(d, root, t, n - 1) ==> !d.json(t).Object?
    decreases LIMIT - |visited|, |now| + |next|, |next|
  {
    var queue := now + next;
    if queue != [] && |visited| < LIMIT {
      if now == [] {
        NextLayer(d, root, next, visited, depth);
        assert next + [] == queue;
        NearestFirst(d, root, next, [], visited, depth + 1);
      } else {
        var c := Strip(now[0]);
        assert queue[0] == now[0] && now[0] in now && queue[1..] == now[1..] + next;
        hide Strip, Unwrapped, Within;
        if c == "" || c in visited {
          DropFromLayer(d, root, now, next, visited, depth);
          NearestFirst(d, root, now[1..], next, visited, depth);
        } else if !d.json(c).Object? {
          VisitInLayer(d, root, now, next, visited, depth);
          Associative(now[1..], next, Unwrapped(d, c));
          NearestFirst(d, root, now[1..], next + Unwrapped(d, c), visited + {c}, depth);
        } else {
          assert Within(d, root, c, depth);
        }
      }
    }
  }

  // ----- stripping twice -----

  lemma {:induction false} SkipLeavesInk(s: string)
    ensures SkipSpaces(s) == "" || !IsSpace(SkipSpaces(s)[0])
  {
    if s != "" && IsSpace(s[0]) {
      SkipLeavesInk(s[1..]);
    }
  }

  lemma {:induction false} DropLeavesInk(s: string)
    ensures var t := DropTrailing(s, IsSpace);
            t == "" || (!IsSpace(t[|t| - 1]) && t[0] == s[0])
    decreases |s|
  {
    if s != "" && IsSpace(s[|s| - 1]) {
      DropLeavesInk(s[..|s| - 1]);
    }
  }

  lemma StripTwice(s: string)
    ensures Strip(Strip(s)) == Strip(s)
  {
    SkipLeavesInk(s);
    DropLeavesInk(SkipSpaces(s));
  }

  /** The search of a text: an answer is the decoding of something reachable by
      unwrap steps. Without an answer everything visited was reachable and no object,
      and either the search visited its limit of candidates or nothing reachable is
      an object. */
  lemma DecodedIsReachable<V>(d: Decoders<V>, text: string)
    ensures Decoded(d, text).Some? ==>
              exists s :: Reachable(d, Strip(text), s) && d.json(s) == Object(Decoded(d, text).value)
    ensures Decoded(d, text).None? ==>
              var visited := Examined(d, [Strip(text)], {});
              && VisitedReachable(d, Strip(text), visited)
              && (|visited| == LIMIT || forall s :: Reachable(d, Strip(text), s) ==> !d.json(s).Object?)
  {
    var root := Strip(text);
    StripTwice(text);
    if root != "" {
      assert Chain(d, root, [root]);
      assert [root][|[root]| - 1] == root;
      assert Reachable(d, root, root);
    }
    assert root in [root];
    SearchIsSound(d, root, [root], {});
    SearchIsComplete(d, root, [root], {});
  }

  /** An answer comes from a nearest object: none is reachable in fewer steps. */
  lemma DecodedIsNearest<V>(d: Decoders<V>, text: string)
    ensures Decoded(d, text).Some? ==>
              exists s, n: nat :: Within(d, Strip(text), s, n) && d.json(s) == Object(Decoded(d, text).value)
                                  && forall t :: Within(d, Strip(text), t, n - 1) ==> !d.json(t).Object?
  {
    var root := Strip(text);
    StripTwice(text);
    if root != "" {
      RootLayer(d, root);
      assert [root] + [] == [root];
      NearestFirst(d, root, [root], [], {}, 0);
    } else {
      assert [root][1..] == [];
      assert Search(d, [root], {}) == Search(d, [], {});
    }
  }

  lemma RootLayer<V>(d: Decoders<V>, root: string)
    requires root != "" && Strip(root) == root
    ensures Layered(d, root, [root], [], {}, 0)
  {
    assert Chain(d, root, [root]) && [root][|[root]| - 1] == root && |[root]| <= 1;
    assert Within(d, root, root, 0);
    assert root in [root];
  }

  // ----- changefeed events -----

  /** The objects found in the candidates, in order, repetitions included. */
  function Found<V>(d: Decoders<V>, candidates: seq<string>): seq<V> {
    if candidates == [] then []
    else
      var front := Found(d, candidates[..|candidates| - 1]);
      match Decoded(d, candidates[|candidates| - 1]) case None => front case Some(v) => front + [v]
  }

  /** The objects found stand for the candidates that hold one, each for its own, in
      order, and for no others. */
  lemma {:induction false} FoundIsExact<V>(d: Decoders<V>, candidates: seq<string>) returns (at: seq<nat>)
    ensures |at| == |Found(d, candidates)|
    ensures forall k :: 0 <= k < |at| ==> at[k] < |candidates| && Decoded(d, candidates[at[k]]) == Some(Found(d, candidates)[k])
    ensures forall k, l :: 0 <= k < l < |at| ==> at[k] < at[l]
    ensures forall i :: 0 <= i < |candidates| && i !in at ==> Decoded(d, candidates[i]).None?
    decreases |candidates|
  {
    at := [];
    if candidates != [] {
      hide Decoded;
      var n := |candidates| - 1;
      var front := candidates[..n];
      var before := FoundIsExact(d, front);
      at := before;
      if Decoded(d, candidates[n]).Some? {
        assert Found(d, candidates) == Found(d, front) + [Decoded(d, candidates[n]).value];
        at := before + [n];
      }
      hide Found;
      forall i | 0 <= i < |candidates| && i !in at ensures Decoded(d, candidates[i]).None? {
        if i < n {
          assert i !in before;
          assert front[i] == candidates[i];
        }
      }
    }
  }

  function Keys<V, K>(values: seq<V>, key: V -> K): (keys: seq<K>)
    ensures |keys| == |values| && forall i :: 0 <= i < |values| ==> keys[i] == key(values[i])
  {
    seq(|values|, i requires 0 <= i < |values| => key(values[i]))
  }

  /** The values whose key has not occurred before, in order. */
  function Firsts<V, K(==)>(values: seq<V>, key: V -> K): seq<V> {
    if values == [] then []
    else
      var front, last := Firsts(values[..|values| - 1], key), values[|values| - 1];
      if key(last) in Keys(front, key) then front else front + [last]
  }

  /** One event for each key, no key twice, and in first-occurrence order: what is
      listed after `n` values is never reordered later. */
  lemma {:induction false} FirstsAreFirst<V, K(!new)>(values: seq<V>, key: V -> K, n: nat)
    requires n <= |values|
    ensures var events := Firsts(values, key);
            && (forall i, j :: 0 <= i < j < |events| ==> key(events[i]) != key(events[j]))
            && (forall k: K :: k in Keys(events, key) <==> k in Keys(values, key))
            && Firsts(values[..n], key) <= events
            && (n < |values| && key(values[n]) !in Keys(values[..n], key) ==>
                  |Firsts(values[..n], key)| < |events| && events[|Firsts(values[..n], key)|] == values[n])
    decreases |values|
  {
    if n == |values| {
      assert values[..n] == values;
    }
    if values != [] {
      var m := |values| - 1;
      var front, last := values[..m], values[m];
      assert Keys(values, key) == Keys(front, key) + [key(last)];
      assert Keys(Firsts(front, key) + [last], key) == Keys(Firsts(front, key), key) + [key(last)];
      FirstsAreFirst(front, key, if n < m then n else m);
      if n < m {
        assert front[..n] == values[..n];
      }
      var events := Firsts(front, key);
      forall i | 0 <= i < |events| ensures key(events[i]) in Keys(events, key) {
        assert Keys(events, key)[i] == key(events[i]);
      }
    }
  }

  /** The loop over the candidates. */
  method ParseChangefeedJson<V, K(==,!new)>(d: Decoders<V>, candidates: seq<string>, key: V -> K) returns (events: seq<V>)
    ensures events == Firsts(Found(d, candidates), key)
  {
    hide Decoded, Examined, Search, Strip;
    events := [];
    var seen: set<K> := {};
    for n := 0 to |candidates|
      invariant events == Firsts(Found(d, candidates[..n]), key)
      invariant forall k: K :: k in seen <==> k in Keys(events, key)
    {
      ghost var before := Found(d, candidates[..n]);
      assert candidates[..n + 1][..n] == candidates[..n];
      var decoded, _ := DecodeJsonObjectCandidate(d, candidates[n]);
      if decoded.None? { continue; }
      var v := decoded.value;
      assert Found(d, candidates[..n + 1]) == before + [v];
      assert (before + [v])[..|before|] == before;
      if key(v) !in seen {
        assert Keys(events + [v], key) == Keys(events, key) + [key(v)];
        seen := seen + {key(v)};
        events := events + [v];
      }
    }
    assert candidates[..|candidates|] == candidates;
  }
}
