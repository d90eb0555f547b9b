/**
  File-name globs (models/files.py): five ordered replacements turn a glob into a LIKE pattern
  with `\` as its escape, and `search_files` drops the filter when the pattern is `%`.
 */
module Glob {
  import opened Prelude
  import Like

  // ---------- Reference semantics: `*` any run, `?` one character, the rest literal ----------

  ghost predicate Matches(g: string, v: string, i: nat)
    requires i <= |v|
    decreases |g|
  {
    if g == [] then i == |v|
    else if g[0] == '*' then exists j :: i <= j <= |v| && Matches(g[1..], v, j)
    else i < |v| && (g[0] == '?' || g[0] == v[i]) && Matches(g[1..], v, i + 1)
  }

  // ---------- The translation ----------

  /** Python's `str.replace` for a needle of one character. */
  function Replace(s: string, needle: char, with: string): string {
    if s == [] then []
    else (if s[0] == needle then with else [s[0]]) + Replace(s[1..], needle, with)
  }

  function ToLikePattern(glob: string): string {
    var pattern := Replace(glob, '\\', "\\\\");
    var pattern := Replace(pattern, '%', "\\%");
    var pattern := Replace(pattern, '_', "\\_");
    var pattern := Replace(pattern, '*', "%");
    Replace(pattern, '?', "_")
  }

  /** The same translation one character at a time. */
  function Translate(glob: string): string {
    if glob == [] then [] else TranslateChar(glob[0]) + Translate(glob[1..])
  }

  function TranslateChar(c: char): string {
    match c
    case '*' => "%"
    case '?' => "_"
    case '\\' => "\\\\"
    case '%' => "\\%"
    case '_' => "\\_"
    case _ => [c]
  }

  lemma {:induction false} ReplaceAppend(a: string, b: string, needle: char, with: string)
    ensures Replace(a + b, needle, with) == Replace(a, needle, with) + Replace(b, needle, with)
  {
    if a == [] {
      assert a + b == b;
    } else {
      assert (a + b)[1..] == a[1..] + b;
      ReplaceAppend(a[1..], b, needle, with);
    }
  }

  lemma ToLikePatternAppend(a: string, b: string)
    ensures ToLikePattern(a + b) == ToLikePattern(a) + ToLikePattern(b)
  {
    var a1, b1 := Replace(a, '\\', "\\\\"), Replace(b, '\\', "\\\\");
    var a2, b2 := Replace(a1, '%', "\\%"), Replace(b1, '%', "\\%");
    var a3, b3 := Replace(a2, '_', "\\_"), Replace(b2, '_', "\\_");
    var a4, b4 := Replace(a3, '*', "%"), Replace(b3, '*', "%");
    ReplaceAppend(a, b, '\\', "\\\\");
    ReplaceAppend(a1, b1, '%', "\\%");
    ReplaceAppend(a2, b2, '_', "\\_");
    ReplaceAppend(a3, b3, '*', "%");
    ReplaceAppend(a4, b4, '?', "_");
  }

  lemma ReplaceShort(s: string, needle: char, with: string)
    ensures |s| == 1 ==> Replace(s, needle, with) == if s[0] == needle then with else s
    ensures |s| == 2 ==>
              (Replace(s, needle, with) ==
               (if s[0] == needle then with else [s[0]]) + (if s[1] == needle then with else [s[1]]))
  {
    if |s| == 1 {
      assert s == [s[0]];
      assert Replace(s[1..], needle, with) == [];
    } else if |s| == 2 {
      assert Replace(s[1..], needle, with) == (if s[1] == needle then with else [s[1]]) + Replace(s[1..][1..], needle, with);
    }
  }

  lemma ToLikePatternChar(c: char)
    ensures ToLikePattern([c]) == TranslateChar(c)
  {
    var p1 := Replace([c], '\\', "\\\\");
    ReplaceShort([c], '\\', "\\\\");
    var p2 := Replace(p1, '%', "\\%");
    ReplaceShort(p1, '%', "\\%");
    var p3 := Replace(p2, '_', "\\_");
    ReplaceShort(p2, '_', "\\_");
    var p4 := Replace(p3, '*', "%");
    ReplaceShort(p3, '*', "%");
    ReplaceShort(p4, '?', "_");
  }

  /** No replacement touches the output of another, whatever the glob. */
  lemma {:induction false} ReplacementsTranslate(glob: string)
    ensures ToLikePattern(glob) == Translate(glob)
  {
    if glob != [] {
      assert glob == [glob[0]] + glob[1..];
      ToLikePatternAppend([glob[0]], glob[1..]);
      ToLikePatternChar(glob[0]);
      ReplacementsTranslate(glob[1..]);
    }
  }

  // ---------- The pattern means what the glob means ----------

  const ESCAPE: Option<string> := Some("\\")

  lemma StarWitness(g: string, v: string, i: nat) returns (j: nat)
    requires i <= |v| && g != [] && g[0] == '*' && Matches(g, v, i)
    ensures i <= j <= |v| && Matches(g[1..], v, j)
  {
    j :| i <= j <= |v| && Matches(g[1..], v, j);
  }

  lemma {:induction false} TranslationMatches(done: string, glob: string, v: string, i: nat)
    requires i <= |v|
    ensures Like.MatchesAt(done + Translate(glob), ESCAPE, |done|, v, i) <==> Matches(glob, v, i)
    decreases |glob|
  {
    var p := done + Translate(glob);
    if glob != [] {
      var c := glob[0];
      var next := done + TranslateChar(c);
      assert p == next + Translate(glob[1..]);
      assert p[|done|] == TranslateChar(c)[0];
      if c == '*' {
        forall j | i <= j <= |v|
          ensures Like.MatchesAt(p, ESCAPE, |done| + 1, v, j) <==> Matches(glob[1..], v, j)
        {
          TranslationMatches(next, glob[1..], v, j);
        }
        if Matches(glob, v, i) {
          var j := StarWitness(glob, v, i);
          assert Like.MatchesAt(p, ESCAPE, |done| + 1, v, j);
        }
        if Like.MatchesSomewhere(p, ESCAPE, |done| + 1, v, i) {
          var j := Like.RunWitness(p, ESCAPE, |done| + 1, v, i);
          assert Matches(glob[1..], v, j);
        }
      } else if i < |v| {
        TranslationMatches(next, glob[1..], v, i + 1);
        if |TranslateChar(c)| == 2 {
          assert p[|done| + 1] == c;
        }
      }
    }
  }

  lemma {:induction false} TranslationIsNotDangling(done: string, glob: string)
    ensures !Like.Dangling(done + Translate(glob), ESCAPE, |done|)
    decreases |glob|
  {
    var p := done + Translate(glob);
    if glob != [] {
      var next := done + TranslateChar(glob[0]);
      assert p == next + Translate(glob[1..]);
      assert p[|done|] == TranslateChar(glob[0])[0];
      TranslationIsNotDangling(next, glob[1..]);
    }
  }

  /** LIKE with escape `\` on the translated glob accepts exactly what the glob accepts. */
  lemma GlobTheorem(glob: string, v: string)
    ensures Like.Matches(ToLikePattern(glob), ESCAPE, v) <==> Matches(glob, v, 0)
    ensures !Like.Dangling(ToLikePattern(glob), ESCAPE, 0)
    ensures Like.Compile(ToLikePattern(glob), ESCAPE).Compiled?
  {
    ReplacementsTranslate(glob);
    TranslationMatches([], glob, v, 0);
    TranslationIsNotDangling([], glob);
    assert [] + Translate(glob) == Translate(glob);
    Like.MalformedIffDangling(Translate(glob), ESCAPE, 0);
  }

  // ---------- search_files ----------

  const META := "%_\\*?"

  /** `lower` neither changes a metacharacter nor produces one. */
  ghost predicate FixesMeta(lower: char -> char) {
    forall c, k :: 0 <= k < |META| ==> (lower(c) == META[k] <==> c == META[k])
  }

  lemma {:induction false} LowerTranslate(lower: char -> char, glob: string)
    requires FixesMeta(lower)
    ensures Like.Lower(lower, Translate(glob)) == Translate(Like.Lower(lower, glob))
  {
    if glob != [] {
      var c := glob[0];
      LowerTranslate(lower, glob[1..]);
      assert Like.Lower(lower, glob)[1..] == Like.Lower(lower, glob[1..]);
      assert META == ['%', '_', '\\', '*', '?'];
      assert lower(META[0]) == META[0] && lower(META[1]) == META[1] && lower(META[2]) == META[2];
      assert forall k :: 0 <= k < 5 ==> (lower(c) == META[k] <==> c == META[k]);
      assert (lower(c) == META[0] <==> c == META[0]) && (lower(c) == META[1] <==> c == META[1]) &&
             (lower(c) == META[2] <==> c == META[2]) && (lower(c) == META[3] <==> c == META[3]) &&
             (lower(c) == META[4] <==> c == META[4]);
      assert Like.Lower(lower, TranslateChar(c)) == TranslateChar(lower(c));
      assert Like.Lower(lower, Translate(glob)) ==
             Like.Lower(lower, TranslateChar(c)) + Like.Lower(lower, Translate(glob[1..]));
    }
  }

  /** The rows `search_files` keeps for a glob: no filter for `%`, otherwise ILIKE with escape `\`. */
  ghost predicate Selects(lower: char -> char, glob: string, filename: string) {
    var pattern := ToLikePattern(glob);
    pattern == "%" ||
    Like.Matches(Like.Lower(lower, pattern), Like.LowerOption(lower, ESCAPE), Like.Lower(lower, filename))
  }

  /** The search keeps exactly the names that the glob matches, letter case aside. */
  lemma SearchTheorem(lower: char -> char, glob: string, filename: string)
    requires FixesMeta(lower)
    ensures Selects(lower, glob, filename) <==> Matches(Like.Lower(lower, glob), Like.Lower(lower, filename), 0)
  {
    var g, v := Like.Lower(lower, glob), Like.Lower(lower, filename);
    LowerTranslate(lower, glob);
    ReplacementsTranslate(glob);
    ReplacementsTranslate(g);
    GlobTheorem(g, v);
    assert lower(META[2]) == META[2] && lower(META[0]) == META[0];
    assert Like.LowerOption(lower, ESCAPE) == ESCAPE by {
      assert Like.Lower(lower, "\\") == "\\";
    }
    if ToLikePattern(glob) == "%" {
      assert Like.Lower(lower, "%") == "%";
      assert Like.MatchesAt("%", ESCAPE, 1, v, |v|);
      assert Like.MatchesSomewhere("%", ESCAPE, 1, v, 0);
      assert Like.MatchesAt("%", ESCAPE, 0, v, 0);
    }
  }
}
