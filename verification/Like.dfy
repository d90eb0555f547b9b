/**
  The `like` function that the SQLite engine is given (internal/db.py): the pattern is cut into
  segments at `%`, the segments become one regular expression, and compiled expressions are kept
  in a bounded table.

  `Matches` is the reference: the LIKE predicate of section 8.5 of ISO/IEC 9075-2, except where the
  standard raises an error: a dangling escape matches nothing, and an escaped ordinary character
  stands for itself.
 */
module Like {
  import opened Prelude

  // ---------- Reference semantics ----------

  /** Does `escape` name character `c`?  An absent, empty or longer escape names none. */
  predicate Escapes(escape: Option<string>, c: char) {
    escape.Some? && escape.value == [c]
  }

  /** Pattern p from position k matches value v from position i, `%` trying every length. */
  ghost predicate MatchesAt(p: string, escape: Option<string>, k: nat, v: string, i: nat)
    requires k <= |p| && i <= |v|
    decreases |p| - k, 0
  {
    if k == |p| then
      i == |v|
    else if Escapes(escape, p[k]) then
      k + 1 < |p| && i < |v| && v[i] == p[k + 1] && MatchesAt(p, escape, k + 2, v, i + 1)
    else if p[k] == '%' then
      MatchesSomewhere(p, escape, k + 1, v, i)
    else
      i < |v| && (p[k] == '_' || p[k] == v[i]) && MatchesAt(p, escape, k + 1, v, i + 1)
  }

  ghost predicate MatchesSomewhere(p: string, escape: Option<string>, k: nat, v: string, i: nat)
    requires k <= |p| && i <= |v|
    decreases |p| - k, 1
  {
    exists j :: i <= j <= |v| && MatchesAt(p, escape, k, v, j)
  }

  ghost predicate Matches(p: string, escape: Option<string>, v: string) {
    MatchesAt(p, escape, 0, v, 0)
  }

  lemma RunWitness(p: string, escape: Option<string>, k: nat, v: string, i: nat) returns (j: nat)
    requires k <= |p| && i <= |v| && MatchesSomewhere(p, escape, k, v, i)
    ensures i <= j <= |v| && MatchesAt(p, escape, k, v, j)
  {
    j :| i <= j <= |v| && MatchesAt(p, escape, k, v, j);
  }

  // ---------- What the reference says of simple patterns ----------

  /** A pattern without wildcards and escapes matches itself alone. */
  lemma {:induction false} PlainPattern(p: string, escape: Option<string>, k: nat, v: string, i: nat)
    requires k <= |p| && i <= |v|
    requires forall j :: k <= j < |p| ==> p[j] != '%' && p[j] != '_' && (escape.Some? ==> escape.value != [p[j]])
    ensures MatchesAt(p, escape, k, v, i) <==> p[k..] == v[i..]
    decreases |p| - k
  {
    if k < |p| && i < |v| {
      PlainPattern(p, escape, k + 1, v, i + 1);
      assert p[k..] == [p[k]] + p[k + 1..] && v[i..] == [v[i]] + v[i + 1..];
    }
  }

  /** Every character behind an escape. */
  function Quote(p: string, escape: char): string {
    if p == [] then [] else [escape, p[0]] + Quote(p[1..], escape)
  }

  /** A pattern in which every character is escaped matches exactly those characters. */
  lemma {:induction false} QuotedPattern(done: string, p: string, escape: char, v: string, i: nat)
    requires i <= |v|
    ensures MatchesAt(done + Quote(p, escape), Some([escape]), |done|, v, i) <==> p == v[i..]
    decreases |p|
  {
    var q := done + Quote(p, escape);
    if p != [] {
      var next := done + [escape, p[0]];
      assert q == next + Quote(p[1..], escape);
      assert q[|done|] == escape && q[|done| + 1] == p[0];
      if i < |v| {
        QuotedPattern(next, p[1..], escape, v, i + 1);
        assert p == [p[0]] + p[1..] && v[i..] == [v[i]] + v[i + 1..];
      }
    }
  }

  /** Only an escape of one character escapes anything. */
  lemma {:induction false} OtherEscapesAreNone(p: string, escape: string, k: nat, v: string, i: nat)
    requires |escape| != 1 && k <= |p| && i <= |v|
    ensures MatchesAt(p, Some(escape), k, v, i) <==> MatchesAt(p, None, k, v, i)
    decreases |p| - k
  {
    if k < |p| && p[k] == '%' {
      if MatchesSomewhere(p, None, k + 1, v, i) {
        var j := RunWitness(p, None, k + 1, v, i);
        OtherEscapesAreNone(p, escape, k + 1, v, j);
      }
      if MatchesSomewhere(p, Some(escape), k + 1, v, i) {
        var j := RunWitness(p, Some(escape), k + 1, v, i);
        OtherEscapesAreNone(p, escape, k + 1, v, j);
      }
    } else if k < |p| && i < |v| {
      OtherEscapesAreNone(p, escape, k + 1, v, i + 1);
    }
  }

  /** `_` is any one character and `%` any run of them. */
  lemma WildcardsMatch(v: string)
    ensures Matches("_", None, v) <==> |v| == 1
    ensures Matches("%", None, v)
  {
    assert MatchesAt("%", None, 1, v, |v|);
    assert MatchesSomewhere("%", None, 1, v, 0);
  }

  // ---------- Regular expressions as the `re` module runs them ----------

  /** `.` under DOTALL, one escaped literal, `.*?`, `.*` and `(?>...)`; a sequence is concatenation. */
  datatype Node = Dot | Chr(c: char) | LazyAny | GreedyAny | Atomic(body: seq<Node>)

  type Regex = seq<Node>

  /** Where a match of `re` that starts at i can end, in the order the engine tries the ends. */
  function Ends(re: Regex, v: string, i: nat): (es: seq<nat>)
    requires i <= |v|
    ensures forall k :: 0 <= k < |es| ==> es[k] <= |v|
    decreases re, 1, 0
  {
    if re == [] then [i] else EndsFrom(NodeEnds(re[0], v, i), re[1..], v)
  }

  function NodeEnds(n: Node, v: string, i: nat): (es: seq<nat>)
    requires i <= |v|
    ensures forall k :: 0 <= k < |es| ==> es[k] <= |v|
    decreases n, 0, 0
  {
    match n
    case Dot => if i < |v| then [i + 1] else []
    case Chr(c) => if i < |v| && v[i] == c then [i + 1] else []
    case LazyAny => seq(|v| - i + 1, k requires 0 <= k <= |v| - i => i + k)
    case GreedyAny => seq(|v| - i + 1, k requires 0 <= k <= |v| - i => |v| - k)
    case Atomic(body) =>
      var es := Ends(body, v, i);
      if es == [] then [] else [es[0]]
  }

  function EndsFrom(starts: seq<nat>, re: Regex, v: string): (es: seq<nat>)
    requires forall k :: 0 <= k < |starts| ==> starts[k] <= |v|
    ensures forall k :: 0 <= k < |es| ==> es[k] <= |v|
    decreases re, 2, |starts|
  {
    if starts == [] then [] else Ends(re, v, starts[0]) + EndsFrom(starts[1..], re, v)
  }

  predicate FullMatch(re: Regex, v: string) {
    |v| in Ends(re, v, 0)
  }

  // ---------- Compilation ----------

  /** A segment holds only `.` and literals, so it has a fixed length. */
  predicate IsSegment(s: Regex) {
    forall n :: n in s ==> n.Dot? || n.Chr?
  }

  /** The compiled form: first segment, each middle one as `(?>.*?segment)`, last one after `.*`. */
  function ToRegex(segments: seq<Regex>): Regex
    requires segments != []
  {
    if |segments| == 1 then segments[0]
    else segments[0] + Middle(segments[1..|segments| - 1]) + [GreedyAny] + segments[|segments| - 1]
  }

  function Middle(segments: seq<Regex>): Regex {
    if segments == [] then []
    else [Atomic([LazyAny] + segments[0])] + Middle(segments[1..])
  }

  /** The segments of p from position k on; `escaped` says that p[k - 1] was a live escape. */
  function SegmentsFrom(p: string, escape: Option<string>, k: nat, escaped: bool): (r: Option<seq<Regex>>)
    requires k <= |p|
    ensures r.Some? ==> r.value != [] && forall j :: 0 <= j < |r.value| ==> IsSegment(r.value[j])
    decreases |p| - k
  {
    if k == |p| then
      if escaped then None else Some([[]])
    else if !escaped && Escapes(escape, p[k]) then
      SegmentsFrom(p, escape, k + 1, true)
    else
      var rest := SegmentsFrom(p, escape, k + 1, false);
      if rest.None? then None
      else if !escaped && p[k] == '%' then Some([[]] + rest.value)
      else Some([[Unit(p[k], escaped)] + rest.value[0]] + rest.value[1..])
  }

  function Unit(c: char, escaped: bool): Node {
    if !escaped && c == '_' then Dot else Chr(c)
  }

  datatype Entry = Malformed | Compiled(re: Regex)

  function Compile(p: string, escape: Option<string>): Entry {
    var s := SegmentsFrom(p, escape, 0, false);
    if s.None? then Malformed else Compiled(ToRegex(s.value))
  }

  // ---------- Greedy matching of segments loses no match ----------

  predicate UnitMatches(n: Node, c: char) {
    n.Dot? || n == Chr(c)
  }

  predicate SegmentAt(s: Regex, v: string, i: nat)
    decreases s
  {
    s == [] || (i < |v| && UnitMatches(s[0], v[i]) && SegmentAt(s[1..], v, i + 1))
  }

  lemma {:induction false} SegmentFits(s: Regex, v: string, i: nat)
    requires i <= |v| && SegmentAt(s, v, i)
    ensures i + |s| <= |v|
  {
    if s != [] {
      SegmentFits(s[1..], v, i + 1);
    }
  }

  /** The declarative meaning of a segment list: some placement in order, first and last pinned. */
  ghost predicate Placed(segments: seq<Regex>, v: string, i: nat)
    requires segments != [] && i <= |v|
    decreases segments, 1
  {
    SegmentAt(segments[0], v, i) && i + |segments[0]| <= |v| &&
    if |segments| == 1 then i + |segments[0]| == |v|
    else PlacedSomewhere(segments[1..], v, i + |segments[0]|)
  }

  ghost predicate PlacedSomewhere(segments: seq<Regex>, v: string, i: nat)
    requires segments != [] && i <= |v|
    decreases segments, 2
  {
    exists j :: i <= j <= |v| && Placed(segments, v, j)
  }

  lemma OneStart(re: Regex, v: string, i: nat)
    requires i <= |v|
    ensures EndsFrom([i], re, v) == Ends(re, v, i)
  {
    assert EndsFrom([], re, v) == [];
  }

  lemma UnitEnds(re: Regex, v: string, i: nat)
    requires re != [] && (re[0].Dot? || re[0].Chr?) && i <= |v|
    ensures Ends(re, v, i) == if i < |v| && UnitMatches(re[0], v[i]) then Ends(re[1..], v, i + 1) else []
  {
    if i < |v| && UnitMatches(re[0], v[i]) {
      OneStart(re[1..], v, i + 1);
    } else {
      assert NodeEnds(re[0], v, i) == [];
    }
  }

  lemma {:induction false} PrefixEnds(all: Regex, n: nat, v: string, i: nat)
    requires n <= |all| && IsSegment(all[..n]) && i <= |v|
    ensures Ends(all, v, i) == if SegmentAt(all[..n], v, i) && i + n <= |v| then Ends(all[n..], v, i + n) else []
    decreases n
  {
    if n == 0 {
      assert all[0..] == all;
    } else {
      var tail := all[1..];
      assert all[..n][1..] == tail[..n - 1] && all[n..] == tail[n - 1..];
      assert all[..n][0] in all[..n];
      UnitEnds(all, v, i);
      if i < |v| && UnitMatches(all[0], v[i]) {
        PrefixEnds(tail, n - 1, v, i + 1);
      }
    }
  }

  lemma SegmentEnds(s: Regex, re: Regex, v: string, i: nat)
    requires IsSegment(s) && i <= |v|
    ensures Ends(s + re, v, i) == if SegmentAt(s, v, i) && i + |s| <= |v| then Ends(re, v, i + |s|) else []
  {
    assert (s + re)[..|s|] == s && (s + re)[|s|..] == re;
    PrefixEnds(s + re, |s|, v, i);
  }

  lemma Witness(segments: seq<Regex>, v: string, i: nat) returns (j: nat)
    requires segments != [] && i <= |v| && PlacedSomewhere(segments, v, i)
    ensures i <= j <= |v| && Placed(segments, v, j)
  {
    j :| i <= j <= |v| && Placed(segments, v, j);
  }

  /** The first place at or after i where s matches, or |v| + 1. */
  function Leftmost(s: Regex, v: string, i: nat): (j: nat)
    requires i <= |v| + 1
    ensures i <= j <= |v| + 1
    ensures j <= |v| ==> SegmentAt(s, v, j)
    ensures forall k :: i <= k < j ==> !SegmentAt(s, v, k)
    decreases |v| + 1 - i
  {
    if i == |v| + 1 || SegmentAt(s, v, i) then i else Leftmost(s, v, i + 1)
  }

  lemma {:induction false} LazyStarts(starts: seq<nat>, s: Regex, v: string, i: nat)
    requires IsSegment(s) && i <= |v| + 1
    requires |starts| == |v| + 1 - i && forall k :: 0 <= k < |starts| ==> starts[k] == i + k
    ensures var es := EndsFrom(starts, s, v);
            var j := Leftmost(s, v, i);
            if j <= |v| then es != [] && es[0] == j + |s| else es == []
    decreases |starts|
  {
    if starts != [] {
      SegmentEnds(s, [], v, i);
      assert s + [] == s;
      if SegmentAt(s, v, i) {
        SegmentFits(s, v, i);
      } else {
        LazyStarts(starts[1..], s, v, i + 1);
      }
    }
  }

  lemma AtomicEnds(s: Regex, re: Regex, v: string, i: nat)
    requires IsSegment(s) && i <= |v|
    ensures var j := Leftmost(s, v, i);
            if j <= |v| then j + |s| <= |v| && Ends([Atomic([LazyAny] + s)] + re, v, i) == Ends(re, v, j + |s|)
            else Ends([Atomic([LazyAny] + s)] + re, v, i) == []
  {
    var body := [LazyAny] + s;
    assert body[1..] == s;
    LazyStarts(NodeEnds(LazyAny, v, i), s, v, i);
    assert ([Atomic(body)] + re)[1..] == re;
    var j := Leftmost(s, v, i);
    if j <= |v| {
      SegmentFits(s, v, j);
      assert NodeEnds(Atomic(body), v, i) == [j + |s|];
      OneStart(re, v, j + |s|);
    } else {
      assert NodeEnds(Atomic(body), v, i) == [];
      assert EndsFrom([], re, v) == [];
    }
  }

  lemma {:induction false} EndsFromMember(starts: seq<nat>, s: Regex, v: string)
    requires IsSegment(s) && forall k :: 0 <= k < |starts| ==> starts[k] <= |v|
    ensures |v| in EndsFrom(starts, s, v) <==> |v| >= |s| && |v| - |s| in starts && SegmentAt(s, v, |v| - |s|)
  {
    if starts != [] {
      SegmentEnds(s, [], v, starts[0]);
      assert s + [] == s;
      EndsFromMember(starts[1..], s, v);
    }
  }

  lemma LastEnds(s: Regex, v: string, i: nat)
    requires IsSegment(s) && i <= |v|
    ensures |v| in Ends([GreedyAny] + s, v, i) <==> PlacedSomewhere([s], v, i)
  {
    assert ([GreedyAny] + s)[1..] == s;
    var starts := NodeEnds(GreedyAny, v, i);
    EndsFromMember(starts, s, v);
    assert |v| >= |s| && i <= |v| - |s| ==> starts[|s|] == |v| - |s|;
    assert |v| >= |s| && i <= |v| - |s| && SegmentAt(s, v, |v| - |s|) ==> Placed([s], v, |v| - |s|);
  }

  /** Pinning every middle segment to its first match loses no match. */
  lemma {:induction false} GreedyIsComplete(segments: seq<Regex>, v: string, i: nat)
    requires segments != [] && i <= |v|
    requires forall j :: 0 <= j < |segments| ==> IsSegment(segments[j])
    ensures |v| in Ends(Middle(segments[..|segments| - 1]) + [GreedyAny] + segments[|segments| - 1], v, i)
       <==> PlacedSomewhere(segments, v, i)
    decreases |segments|
  {
    var n := |segments| - 1;
    var s := segments[0];
    if n == 0 {
      assert segments == [s];
      assert Middle(segments[..0]) + [GreedyAny] + s == [GreedyAny] + s;
      LastEnds(s, v, i);
    } else {
      var tail := segments[1..];
      var re := Middle(tail[..n - 1]) + [GreedyAny] + tail[n - 1];
      assert segments[..n][1..] == tail[..n - 1];
      assert Middle(segments[..n]) + [GreedyAny] + segments[n] == [Atomic([LazyAny] + s)] + re;
      AtomicEnds(s, re, v, i);
      var first := Leftmost(s, v, i);
      if first <= |v| {
        GreedyIsComplete(tail, v, first + |s|);
        if PlacedSomewhere(tail, v, first + |s|) {
          assert Placed(segments, v, first);
        }
      }
      if PlacedSomewhere(segments, v, i) {
        var j := Witness(segments, v, i);
        var k := Witness(tail, v, j + |s|);
        assert first <= j;
      }
    }
  }

  lemma OneSegmentMeaning(s: Regex, v: string)
    requires IsSegment(s)
    ensures |v| in Ends(s, v, 0) <==> Placed([s], v, 0)
  {
    SegmentEnds(s, [], v, 0);
    assert s + [] == s;
  }

  lemma PlacedMany(segments: seq<Regex>, v: string)
    requires |segments| > 1
    ensures var s := segments[0];
            Placed(segments, v, 0) <==> SegmentAt(s, v, 0) && |s| <= |v| && PlacedSomewhere(segments[1..], v, |s|)
  {
  }

  lemma AfterSegment(s: Regex, re: Regex, v: string)
    requires IsSegment(s)
    ensures |v| in Ends(s + re, v, 0) <==> SegmentAt(s, v, 0) && |s| <= |v| && |v| in Ends(re, v, |s|)
  {
    SegmentEnds(s, re, v, 0);
  }

  /** The compiled expression matches exactly the placements of its segments. */
  lemma RegexMeaning(segments: seq<Regex>, v: string)
    requires segments != []
    requires forall j :: 0 <= j < |segments| ==> IsSegment(segments[j])
    ensures FullMatch(ToRegex(segments), v) <==> Placed(segments, v, 0)
  {
    var n := |segments| - 1;
    var s, tail := segments[0], segments[1..];
    if n == 0 {
      OneSegmentMeaning(s, v);
      assert segments == [s];
    } else {
      var re := Middle(tail[..n - 1]) + [GreedyAny] + tail[n - 1];
      assert segments[1..n] == tail[..n - 1];
      assert ToRegex(segments) == s + re;
      AfterSegment(s, re, v);
      PlacedMany(segments, v);
      if |s| <= |v| {
        GreedyIsComplete(tail, v, |s|);
      }
    }
  }

  /** Segments say what the pattern says. */
  lemma {:induction false} SegmentsMeaning(p: string, escape: Option<string>, k: nat, v: string, i: nat)
    requires k <= |p| && i <= |v|
    ensures var segments := SegmentsFrom(p, escape, k, false);
            MatchesAt(p, escape, k, v, i) <==> segments.Some? && Placed(segments.value, v, i)
    decreases |p| - k
  {
    if k == |p| {
    } else if Escapes(escape, p[k]) {
      if k + 1 < |p| && i < |v| {
        SegmentsMeaning(p, escape, k + 2, v, i + 1);
        PlacedUnit(SegmentsFrom(p, escape, k + 2, false), Chr(p[k + 1]), v, i);
      }
    } else if p[k] == '%' {
      var rest := SegmentsFrom(p, escape, k + 1, false);
      forall j | i <= j <= |v|
        ensures MatchesAt(p, escape, k + 1, v, j) <==> rest.Some? && Placed(rest.value, v, j)
      {
        SegmentsMeaning(p, escape, k + 1, v, j);
      }
      if rest.Some? {
        var segments := [[]] + rest.value;
        assert segments[1..] == rest.value;
        assert Placed(segments, v, i) <==> PlacedSomewhere(rest.value, v, i);
        if PlacedSomewhere(rest.value, v, i) {
          var j := Witness(rest.value, v, i);
        }
      }
      if MatchesSomewhere(p, escape, k + 1, v, i) {
        var j := RunWitness(p, escape, k + 1, v, i);
        assert Placed(rest.value, v, j);
      }
    } else if i < |v| {
      SegmentsMeaning(p, escape, k + 1, v, i + 1);
      PlacedUnit(SegmentsFrom(p, escape, k + 1, false), Unit(p[k], false), v, i);
    }
  }

  lemma PlacedUnit(rest: Option<seq<Regex>>, unit: Node, v: string, i: nat)
    requires i < |v| && (rest.Some? ==> rest.value != [])
    ensures rest.Some? ==>
              (Placed([[unit] + rest.value[0]] + rest.value[1..], v, i) <==>
               UnitMatches(unit, v[i]) && Placed(rest.value, v, i + 1))
  {
    if rest.Some? {
      var segments := [[unit] + rest.value[0]] + rest.value[1..];
      assert segments[0][1..] == rest.value[0];
      assert segments[1..] == rest.value[1..];
    }
  }

  /** Compiling and running the expression decides the reference predicate. */
  lemma CompileIsCorrect(p: string, escape: Option<string>, v: string)
    ensures Matches(p, escape, v) <==> Compile(p, escape).Compiled? && FullMatch(Compile(p, escape).re, v)
  {
    SegmentsMeaning(p, escape, 0, v, 0);
    var segments := SegmentsFrom(p, escape, 0, false);
    if segments.Some? {
      RegexMeaning(segments.value, v);
    }
  }

  /** A pattern is rejected at compile time exactly when it ends in a live escape. */
  ghost predicate Dangling(p: string, escape: Option<string>, k: nat)
    requires k <= |p|
    decreases |p| - k
  {
    k < |p| &&
    if Escapes(escape, p[k]) then k + 1 == |p| || Dangling(p, escape, k + 2) else Dangling(p, escape, k + 1)
  }

  lemma {:induction false} MalformedIffDangling(p: string, escape: Option<string>, k: nat)
    requires k <= |p|
    ensures SegmentsFrom(p, escape, k, false).None? <==> Dangling(p, escape, k)
    decreases |p| - k
  {
    if k < |p| {
      if !Escapes(escape, p[k]) {
        MalformedIffDangling(p, escape, k + 1);
      } else if k + 1 < |p| {
        MalformedIffDangling(p, escape, k + 2);
      }
    }
  }

  lemma DanglingMatchesNothing(p: string, escape: Option<string>, v: string)
    requires Dangling(p, escape, 0)
    ensures !Matches(p, escape, v)
  {
    MalformedIffDangling(p, escape, 0);
    CompileIsCorrect(p, escape, v);
  }

  // ---------- The function registered with the connection ----------

  const MEMO_LIMIT := 512

  /** Python's `str.lower`, taken character by character. */
  function Lower(lower: char -> char, s: string): (r: string)
    ensures |r| == |s| && forall k :: 0 <= k < |s| ==> r[k] == lower(s[k])
  {
    seq(|s|, k requires 0 <= k < |s| => lower(s[k]))
  }

  function LowerOption(lower: char -> char, s: Option<string>): (r: Option<string>)
    ensures r.Some? <==> s.Some?
    ensures r.Some? ==> |r.value| == |s.value| && forall k :: 0 <= k < |r.value| ==> r.value[k] == lower(s.value[k])
  {
    if s.Some? then Some(Lower(lower, s.value)) else None
  }

  /** Segments already closed plus the open one, followed by the segments still to come. */
  ghost function Append(done: seq<Regex>, rest: Option<seq<Regex>>): Option<seq<Regex>>
    requires done != [] && (rest.Some? ==> rest.value != [])
  {
    if rest.None? then None
    else Some(done[..|done| - 1] + [done[|done| - 1] + rest.value[0]] + rest.value[1..])
  }

  lemma AppendUnit(done: seq<Regex>, unit: Node, rest: Option<seq<Regex>>)
    requires done != [] && rest.Some? && rest.value != []
    ensures Append(done, Some([[unit] + rest.value[0]] + rest.value[1..]))
         == Append(done[|done| - 1 := done[|done| - 1] + [unit]], rest)
  {
    var last := done[|done| - 1];
    assert last + ([unit] + rest.value[0]) == (last + [unit]) + rest.value[0];
  }

  lemma AppendRun(done: seq<Regex>, rest: Option<seq<Regex>>)
    requires done != [] && rest.Some? && rest.value != []
    ensures Append(done, Some([[]] + rest.value)) == Append(done + [[]], rest)
  {
    var last := done[|done| - 1];
    assert last + [] == last;
    assert [] + rest.value[0] == rest.value[0];
    assert Append(done, Some([[]] + rest.value)).value == Append(done + [[]], rest).value;
  }

  lemma AppendNothing(done: seq<Regex>)
    requires done != []
    ensures Append(done, Some([[]])) == Some(done)
  {
    var last := done[|done| - 1];
    assert last + [] == last;
    assert Append(done, Some([[]])).value == done;
  }

  class LikeFunction {
    const lower: char -> char
    var compiledPatterns: map<(string, Option<string>), Entry>

    ghost predicate Valid()
      reads this
    {
      |compiledPatterns| <= MEMO_LIMIT &&
      forall key :: key in compiledPatterns ==> compiledPatterns[key] == Compile(key.0, key.1)
    }

    constructor (lower: char -> char)
      ensures Valid() && this.lower == lower && compiledPatterns == map[]
    {
      this.lower := lower;
      compiledPatterns := map[];
    }

    /** The loop that cuts a lowered pattern into segments; None for a dangling escape. */
    static method Cut(pattern: string, escape: Option<string>) returns (segments: Option<seq<Regex>>)
      ensures segments == SegmentsFrom(pattern, escape, 0, false)
    {
      var done: seq<Regex> := [[]];
      var escaped := false;
      if SegmentsFrom(pattern, escape, 0, false).Some? {
        var first := SegmentsFrom(pattern, escape, 0, false).value;
        assert [] + first[0] == first[0];
        assert Append(done, Some(first)).value == first;
      }
      for i := 0 to |pattern|
        invariant done != []
        invariant SegmentsFrom(pattern, escape, 0, false) == Append(done, SegmentsFrom(pattern, escape, i, escaped))
      {
        var c := pattern[i];
        ghost var rest := SegmentsFrom(pattern, escape, i + 1, false);
        if !escaped && Escapes(escape, c) {
          escaped := true;
        } else {
          if !escaped && c == '%' {
            if rest.Some? {
              AppendRun(done, rest);
            }
            done := done + [[]];
          } else {
            var unit := Unit(c, escaped);
            if rest.Some? {
              AppendUnit(done, unit, rest);
            }
            done := done[|done| - 1 := done[|done| - 1] + [unit]];
          }
          escaped := false;
        }
      }
      AppendNothing(done);
      segments := if escaped then None else Some(done);
    }

    /** Returns NULL for a NULL argument, and otherwise decides LIKE on the lowered arguments. */
    method Call(pattern: Option<string>, value: Option<string>, escape: Option<string>) returns (r: Option<bool>)
      requires Valid()
      modifies this
      ensures Valid() && |compiledPatterns| <= 512
      ensures r.None? <==> pattern.None? || value.None?
      ensures r.Some? ==> (r.value <==>
                Matches(Lower(lower, pattern.value), LowerOption(lower, escape), Lower(lower, value.value)))
      // a new key is compiled and kept, in an emptied table if the old one was full
      ensures r.None? ==> compiledPatterns == old(compiledPatterns)
      ensures r.Some? ==>
                var key := (Lower(lower, pattern.value), LowerOption(lower, escape));
                compiledPatterns ==
                if key in old(compiledPatterns) then old(compiledPatterns)
                else (if |old(compiledPatterns)| >= MEMO_LIMIT then map[] else old(compiledPatterns))[key := Compile(key.0, key.1)]
    {
      if pattern.None? || value.None? {
        return None;
      }
      var p, e, v := Lower(lower, pattern.value), LowerOption(lower, escape), Lower(lower, value.value);
      CompileIsCorrect(p, e, v);
      var key := (p, e);
      var entry;
      if key in compiledPatterns {
        entry := compiledPatterns[key];
      } else {
        var segments := Cut(p, e);
        entry := if segments.None? then Malformed else Compiled(ToRegex(segments.value));
        if |compiledPatterns| >= MEMO_LIMIT {
          compiledPatterns := map[];
        }
        compiledPatterns := compiledPatterns[key := entry];
      }
      r := Some(entry.Compiled? && FullMatch(entry.re, v));
    }
  }
}
