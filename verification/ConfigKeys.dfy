/**
  Flattened API-connection keys (models/config.py): `<connection>.<field>...` rows are cut back into
  the connection key, which may itself contain dots, and the path inside its object.
 */
module ConfigKeys {
  import opened Prelude

  const API_CONFIG_FIELDS: seq<string> := [
    "enable", "key", "prefix_id", "tags", "model_ids", "connection_type", "provider", "auth_type", "headers", "azure",
    "api_type", "api_version", "extra_params", "passthrough_params"]

  // ---------- Dotted strings ----------

  function Join(path: Path): string
    requires path != []
  {
    if |path| == 1 then path[0] else path[0] + "." + Join(path[1..])
  }

  predicate DotFree(path: Path) {
    forall k :: 0 <= k < |path| ==> '.' !in path[k]
  }

  lemma {:induction false} SplitJoin(path: Path)
    requires path != [] && DotFree(path)
    ensures Split(Join(path), '.') == path
  {
    if |path| == 1 {
      SplitSegment(path[0], "", '.');
    } else {
      SplitSegment(path[0], Join(path[1..]), '.');
      SplitJoin(path[1..]);
    }
  }

  // ---------- The split ----------

  predicate IsDigits(s: string) {
    s != [] && forall k :: 0 <= k < |s| ==> '0' <= s[k] <= '9'
  }

  predicate At(s: string, i: int, part: string) {
    0 <= i && i + |part| <= |s| && s[i..i + |part|] == part
  }

  /** Python's `s.rfind(part)`. */
  function RFind(s: string, part: string): (r: int)
    ensures -1 <= r <= |s|
    ensures r >= 0 ==> At(s, r, part)
    ensures forall i :: r < i ==> !At(s, i, part)
  {
    RFindFrom(s, part, |s|)
  }

  function RFindFrom(s: string, part: string, from: int): (r: int)
    requires -1 <= from <= |s| && forall i :: from < i ==> !At(s, i, part)
    ensures -1 <= r <= |s|
    ensures r >= 0 ==> At(s, r, part)
    ensures forall i :: r < i ==> !At(s, i, part)
    decreases from + 1
  {
    if from == -1 || At(s, from, part) then from else RFindFrom(s, part, from - 1)
  }

  /** A dot at i with a field name right after it. */
  ghost predicate MarkerAt(fields: seq<string>, s: string, i: int) {
    exists f :: 0 <= f < |fields| && At(s, i, "." + fields[f])
  }

  ghost predicate NoMarkerAfter(fields: seq<string>, s: string, i: int) {
    forall j :: i < j < |s| ==> !MarkerAt(fields, s, j)
  }

  datatype Fragment = Fragment(connectionKey: string, path: Path)

  /** What the split must return: cut at the first dot after digits, or else at the last marker. */
  ghost predicate SplitSpec(fields: seq<string>, s: string, r: Option<Fragment>) {
    var first := Split(s, '.')[0];
    if IsDigits(first) && |first| + 1 < |s| then
      r == Some(Fragment(first, Split(s[|first| + 1..], '.')))
    else if r.Some? then
      var i := |r.value.connectionKey|;
      0 < i < |s| && r.value == Fragment(s[..i], Split(s[i + 1..], '.')) &&
      MarkerAt(fields, s, i) && NoMarkerAfter(fields, s, i)
    else
      NoMarkerAfter(fields, s, 0)
  }

  /** The last marker of s at or before `from`, or -1. */
  ghost function LastMarker(fields: seq<string>, s: string, from: int): (i: int)
    requires -1 <= from < |s|
    ensures -1 <= i <= from && (i >= 0 ==> MarkerAt(fields, s, i)) && forall j :: i < j <= from ==> !MarkerAt(fields, s, j)
    decreases from + 1
  {
    if from == -1 || MarkerAt(fields, s, from) then from else LastMarker(fields, s, from - 1)
  }

  /** The result that meets the specification. */
  ghost function SplitOf(fields: seq<string>, s: string): (r: Option<Fragment>)
    ensures SplitSpec(fields, s, r)
  {
    var first := Split(s, '.')[0];
    FirstSegmentFits(s);
    if IsDigits(first) && |first| + 1 < |s| then Some(Fragment(first, Split(s[|first| + 1..], '.')))
    else
      var i := LastMarker(fields, s, |s| - 1);
      if i > 0 then Some(Fragment(s[..i], Split(s[i + 1..], '.'))) else None
  }

  /** There is only one. */
  lemma SplitIsUnique(fields: seq<string>, s: string, r: Option<Fragment>)
    requires SplitSpec(fields, s, r)
    ensures r == SplitOf(fields, s)
  {
    var r' := SplitOf(fields, s);
    var first := Split(s, '.')[0];
    if !(IsDigits(first) && |first| + 1 < |s|) && r.Some? && r'.Some? {
      var i, j := |r.value.connectionKey|, |r'.value.connectionKey|;
      assert MarkerAt(fields, s, i) && MarkerAt(fields, s, j);
      assert i == j;
    }
  }

  lemma {:induction false} FirstSegmentFits(s: string)
    ensures var first := Split(s, '.')[0];
            |first| <= |s| && first == s[..|first|] && '.' !in first && (|first| < |s| ==> s[|first|] == '.')
  {
    if s != [] && s[0] != '.' {
      FirstSegmentFits(s[1..]);
    }
  }

  /** The last marker of the first f fields. */
  ghost predicate Scanned(fields: seq<string>, f: nat, s: string, index: int)
    requires f <= |fields|
  {
    -1 <= index < |s| && (index >= 0 ==> MarkerAt(fields, s, index)) &&
    forall g, j :: 0 <= g < f && index < j ==> !At(s, j, "." + fields[g])
  }

  lemma ScanStep(fields: seq<string>, f: nat, s: string, index: int)
    requires f < |fields| && Scanned(fields, f, s, index)
    ensures var marker := RFind(s, "." + fields[f]);
            Scanned(fields, f + 1, s, if marker != -1 && marker > index then marker else index)
  {
  }

  method SplitFragment(fields: seq<string>, fragment: string) returns (r: Option<Fragment>)
    ensures r == SplitOf(fields, fragment)
  {
    if fragment == [] {
      return None;
    }
    var first := Split(fragment, '.')[0];
    FirstSegmentFits(fragment);
    if IsDigits(first) && |first| + 1 < |fragment| {
      return Some(Fragment(first, Split(fragment[|first| + 1..], '.')));
    }
    var index := -1;
    for f := 0 to |fields|
      invariant Scanned(fields, f, fragment, index)
    {
      ScanStep(fields, f, fragment, index);
      var marker := RFind(fragment, "." + fields[f]);
      if marker != -1 && marker > index {
        index := marker;
      }
    }
    CutAtMarker(fields, fragment, index);
    r := if index > 0 then Some(Fragment(fragment[..index], Split(fragment[index + 1..], '.'))) else None;
  }

  /** What the scan finds is the last marker, and cutting there meets the specification. */
  lemma CutAtMarker(fields: seq<string>, s: string, index: int)
    requires Scanned(fields, |fields|, s, index)
    requires var first := Split(s, '.')[0];
             !(IsDigits(first) && |first| + 1 < |s|)
    ensures SplitOf(fields, s) == if index > 0 then Some(Fragment(s[..index], Split(s[index + 1..], '.'))) else None
  {
    var i := LastMarker(fields, s, |s| - 1);
    assert i <= index;
  }

  /** `_split_api_config_fragment`. */
  method SplitApiConfigFragment(fragment: string) returns (r: Option<Fragment>)
    ensures r == SplitOf(API_CONFIG_FIELDS, fragment)
  {
    r := SplitFragment(API_CONFIG_FIELDS, fragment);
  }

  // ---------- The split inverts flattening ----------

  /** The row fragment of a path in the object of a connection. */
  function Flatten(key: string, path: Path): string
    requires path != []
  {
    key + "." + Join(path)
  }

  ghost predicate BeginsWithField(fields: seq<string>, s: string) {
    exists f :: 0 <= f < |fields| && fields[f] <= s
  }

  ghost predicate LaterField(fields: seq<string>, path: Path) {
    exists k :: 1 <= k < |path| && BeginsWithField(fields, path[k])
  }

  /** Which keys and paths come back. */
  ghost predicate Recoverable(fields: seq<string>, key: string, path: Path)
    requires path != []
  {
    if IsDigits(Split(key, '.')[0]) then '.' !in key && path != [""]
    else BeginsWithField(fields, path[0]) && !LaterField(fields, path)
  }

  lemma JoinBegins(fields: seq<string>, path: Path)
    requires path != [] && DotFree(path) && DotFree(fields)
    ensures BeginsWithField(fields, Join(path)) <==> BeginsWithField(fields, path[0])
  {
    var s := Join(path);
    assert path[0] <= s && (|path| > 1 ==> s[|path[0]|] == '.');
    forall f | 0 <= f < |fields|
      ensures fields[f] <= s <==> fields[f] <= path[0]
    {
      if |fields[f]| > |path[0]| {
        assert fields[f][|path[0]|] in fields[f];
      }
    }
  }

  lemma MarkerAtDot(fields: seq<string>, s: string, i: nat)
    requires i < |s|
    ensures MarkerAt(fields, s, i) <==> s[i] == '.' && BeginsWithField(fields, s[i + 1..])
  {
    forall f | 0 <= f < |fields|
      ensures At(s, i, "." + fields[f]) <==> s[i] == '.' && fields[f] <= s[i + 1..]
    {
      var field := fields[f];
      var m := "." + field;
      if i + |m| <= |s| {
        var cut := s[i..i + |m|];
        assert cut[0] == s[i] && cut[1..] == s[i + 1..i + |m|] && m[1..] == field;
        assert cut == [cut[0]] + cut[1..] && m == [m[0]] + m[1..];
        assert s[i + 1..][..|field|] == s[i + 1..i + |m|];
      }
    }
  }

  lemma MarkerShift(fields: seq<string>, before: string, rest: string, i: nat)
    requires i < |rest|
    ensures MarkerAt(fields, before + rest, |before| + i) <==> MarkerAt(fields, rest, i)
  {
    var s := before + rest;
    MarkerAtDot(fields, s, |before| + i);
    MarkerAtDot(fields, rest, i);
    assert s[|before| + i + 1..] == rest[i + 1..];
  }

  /** Markers from the dot behind a segment on are that one and those of the rest. */
  lemma MarkersAfterSegment(fields: seq<string>, a: string, rest: string)
    ensures var s := a + "." + rest;
            (MarkerAt(fields, s, |a|) <==> BeginsWithField(fields, rest)) &&
            (NoMarkerAfter(fields, s, |a|) <==> NoMarkerAfter(fields, rest, -1))
  {
    var before := a + ".";
    var s := before + rest;
    MarkerAtDot(fields, s, |a|);
    assert s[|a| + 1..] == rest;
    if NoMarkerAfter(fields, s, |a|) {
      forall i | 0 <= i < |rest|
        ensures !MarkerAt(fields, rest, i)
      {
        MarkerShift(fields, before, rest, i);
      }
    }
    if NoMarkerAfter(fields, rest, -1) {
      forall j | |a| < j < |s|
        ensures !MarkerAt(fields, s, j)
      {
        MarkerShift(fields, before, rest, j - |before|);
      }
    }
  }

  /** Markers inside a joined path are its later segments that begin with a field name. */
  lemma {:induction false} MarkersInJoin(fields: seq<string>, path: Path)
    requires path != [] && DotFree(path) && DotFree(fields)
    ensures NoMarkerAfter(fields, Join(path), -1) <==> !LaterField(fields, path)
  {
    var s, a := Join(path), path[0];
    forall i: nat | i < |a|
      ensures !MarkerAt(fields, s, i)
    {
      MarkerAtDot(fields, s, i);
      assert s[i] == a[i] && a[i] in a;
    }
    if |path| > 1 {
      var tail := path[1..];
      MarkersInJoin(fields, tail);
      JoinBegins(fields, tail);
      MarkersAfterSegment(fields, a, Join(tail));
      assert NoMarkerAfter(fields, s, -1) <==> !MarkerAt(fields, s, |a|) && NoMarkerAfter(fields, s, |a|);
      assert forall k :: 1 <= k < |tail| ==> tail[k] == path[k + 1];
      assert LaterField(fields, tail) ==> LaterField(fields, path);
      if k :| 1 <= k < |path| && BeginsWithField(fields, path[k]) {
        assert k > 1 ==> tail[k - 1] == path[k];
      }
    }
  }

  lemma {:induction false} FirstSegmentOfFlatten(key: string, tail: string)
    ensures Split(key + "." + tail, '.')[0] == Split(key, '.')[0]
  {
    var s := key + "." + tail;
    if key != [] {
      assert s[1..] == key[1..] + "." + tail;
      FirstSegmentOfFlatten(key[1..], tail);
    }
  }

  /** Leading digits and a dot are cut off, whatever follows. */
  lemma DigitsAreCutOff(fields: seq<string>, digits: string, rest: string)
    requires IsDigits(digits) && '.' !in digits && rest != []
    ensures SplitOf(fields, digits + "." + rest) == Some(Fragment(digits, Split(rest, '.')))
  {
    var s := digits + "." + rest;
    SplitSegment(digits, rest, '.');
    assert s == digits + ['.'] + rest && s[|digits| + 1..] == rest;
  }

  lemma DottedNumberIsLost(fields: seq<string>, key: string, rest: string)
    requires IsDigits(Split(key, '.')[0]) && '.' in key
    ensures SplitOf(fields, key + "." + rest).Some? && |SplitOf(fields, key + "." + rest).value.connectionKey| < |key|
  {
    var first := Split(key, '.')[0];
    FirstSegmentFits(key);
    FirstSegmentOfFlatten(key, rest);
    assert |first| < |key|;
    assert SplitSpec(fields, key + "." + rest, SplitOf(fields, key + "." + rest));
  }

  /** A key that begins with digits and a dot, or is digits, is cut right after them. */
  lemma NumericComesBack(fields: seq<string>, key: string, path: Path)
    requires path != [] && DotFree(path) && DotFree(fields) && [] !in fields && IsDigits(Split(key, '.')[0])
    ensures SplitOf(fields, Flatten(key, path)) == Some(Fragment(key, path)) <==> '.' !in key && path != [""]
  {
    var rest := Join(path);
    SplitJoin(path);
    if '.' in key {
      DottedNumberIsLost(fields, key, rest);
    } else {
      SplitSegment(key, "", '.');
      if rest != [] {
        DigitsAreCutOff(fields, key, rest);
      } else {
        assert path == Split([], '.') == [[]];
        NoFieldNoCut(fields, key);
      }
    }
  }

  /** Digits and a dot with nothing behind them are not cut there. */
  lemma NoFieldNoCut(fields: seq<string>, key: string)
    requires IsDigits(key) && '.' !in key && [] !in fields
    ensures SplitOf(fields, key + "." + "") != Some(Fragment(key, [""]))
  {
    var s := key + "." + "";
    SplitSegment(key, "", '.');
    assert s == key + ['.'] + "";
    MarkerAtDot(fields, s, |key|);
    assert s[|key| + 1..] == [];
  }

  lemma CutHere(fields: seq<string>, s: string, i: nat)
    requires 0 < i < |s| && !IsDigits(Split(s, '.')[0])
    ensures SplitOf(fields, s) == Some(Fragment(s[..i], Split(s[i + 1..], '.'))) <==>
            MarkerAt(fields, s, i) && NoMarkerAfter(fields, s, i)
  {
    var here := Some(Fragment(s[..i], Split(s[i + 1..], '.')));
    assert |s[..i]| == i;
    if MarkerAt(fields, s, i) && NoMarkerAfter(fields, s, i) {
      SplitIsUnique(fields, s, here);
    }
  }

  /** Any other key is cut at the last marker. */
  lemma FieldComesBack(fields: seq<string>, key: string, path: Path)
    requires key != [] && path != [] && DotFree(path) && DotFree(fields) && !IsDigits(Split(key, '.')[0])
    ensures SplitOf(fields, Flatten(key, path)) == Some(Fragment(key, path)) <==>
            BeginsWithField(fields, path[0]) && !LaterField(fields, path)
  {
    var rest := Join(path);
    var s := key + "." + rest;
    FirstSegmentOfFlatten(key, rest);
    SplitJoin(path);
    MarkersAfterSegment(fields, key, rest);
    JoinBegins(fields, path);
    MarkersInJoin(fields, path);
    assert s[..|key|] == key && s[|key| + 1..] == rest;
    CutHere(fields, s, |key|);
  }

  /** Splitting a flattened key and path gives them back exactly when they are recoverable. */
  lemma SplitInvertsFlatten(fields: seq<string>, key: string, path: Path)
    requires key != [] && path != [] && DotFree(path)
    requires DotFree(fields) && [] !in fields
    ensures SplitOf(fields, Flatten(key, path)) == Some(Fragment(key, path)) <==> Recoverable(fields, key, path)
  {
    if IsDigits(Split(key, '.')[0]) {
      NumericComesBack(fields, key, path);
    } else {
      FieldComesBack(fields, key, path);
    }
  }

  /** For the known fields: what a maintainer may rely on when choosing connection keys. */
  lemma ApiConfigRoundTrip(key: string, path: Path)
    requires key != [] && path != [] && DotFree(path)
    ensures SplitOf(API_CONFIG_FIELDS, Flatten(key, path)) == Some(Fragment(key, path)) <==> Recoverable(API_CONFIG_FIELDS, key, path)
  {
    FieldsAreDotFree();
    SplitInvertsFlatten(API_CONFIG_FIELDS, key, path);
  }

  /** So a bare IPv4 address does not come back as a connection key. */
  lemma AddressIsCut()
    ensures SplitOf(API_CONFIG_FIELDS, Flatten("1.2.3.4", ["enable"])) == Some(Fragment("1", Split("2.3.4.enable", '.')))
  {
    assert Flatten("1.2.3.4", ["enable"]) == "1" + "." + "2.3.4.enable";
    DigitsAreCutOff(API_CONFIG_FIELDS, "1", "2.3.4.enable");
  }

  /** Each of the known fields comes back for any key that does not begin with digits alone. */
  lemma KnownFieldsComeBack(key: string, field: string)
    requires key != [] && !OnlyDigits(Split(key, '.')[0])
    requires field in [
      "enable", "key", "prefix_id", "tags", "model_ids", "connection_type", "provider", "auth_type", "headers", "azure",
      "api_type", "api_version", "extra_params", "passthrough_params"]
    ensures SplitOf(API_CONFIG_FIELDS, key + "." + field) == Some(Fragment(key, [field]))
  {
    KnownField(field);
    FieldsAreDotFree();
    DigitsOnly(Split(key, '.')[0]);
    OneFieldComesBack(API_CONFIG_FIELDS, key, field);
  }

  lemma KnownField(field: string)
    requires field in API_CONFIG_FIELDS
    ensures BeginsWithField(API_CONFIG_FIELDS, field) && '.' !in field
  {
    FieldsAreDotFree();
    MemberBegins(API_CONFIG_FIELDS, field);
  }

  lemma FieldsAreDotFree()
    ensures DotFree(API_CONFIG_FIELDS) && [] !in API_CONFIG_FIELDS
  {
  }

  lemma MemberBegins(fields: seq<string>, field: string)
    requires field in fields && DotFree(fields)
    ensures BeginsWithField(fields, field) && '.' !in field
  {
    var f :| 0 <= f < |fields| && fields[f] == field;
  }

  lemma OneFieldComesBack(fields: seq<string>, key: string, field: string)
    requires key != [] && !IsDigits(Split(key, '.')[0])
    requires DotFree(fields) && BeginsWithField(fields, field) && '.' !in field
    ensures SplitOf(fields, key + "." + field) == Some(Fragment(key, [field]))
  {
    assert DotFree([field]) && !LaterField(fields, [field]);
    FieldComesBack(fields, key, [field]);
    assert Flatten(key, [field]) == key + "." + field;
  }

  predicate OnlyDigits(s: string) {
    s != "" && forall c :: c in s ==> c in "0123456789"
  }

  lemma DigitsOnly(s: string)
    ensures IsDigits(s) <==> OnlyDigits(s)
  {
    var digits := "0123456789";
    assert digits[0] == '0' && digits[1] == '1' && digits[2] == '2' && digits[3] == '3' && digits[4] == '4';
    assert digits[5] == '5' && digits[6] == '6' && digits[7] == '7' && digits[8] == '8' && digits[9] == '9';
    forall c
      ensures c in digits <==> '0' <= c <= '9'
    {
      if '0' <= c <= '9' {
        assert digits[c as int - '0' as int] == c;
      }
    }
    assert forall k :: 0 <= k < |s| ==> s[k] in s;
  }
}
