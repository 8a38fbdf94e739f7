/** The text effect of FRONTEND/src/components/FeaturedWork/VariableProximity.jsx:
    a label drawn one glyph at a time whose font-variation settings move from
    a "from" string to a "to" string as the pointer comes closer.

    Numbers are `Finite` reals or `NaN`; `parseFloat` and the printing of a
    number inside a template string are parameters, since the model does not
    decide how decimal text maps to numbers. The pointer distance is an input. */
module VariableProximity {
  import opened JsString
  import opened JsMath
  import opened Wrappers

  /** A JavaScript number as this code can produce it. */
  datatype JsNumber = Finite(value: real) | NaN

  /** One property of a settings object: an axis tag and its number. */
  datatype Setting = Setting(key: string, value: JsNumber)

  /** A settings object, its properties in insertion order. */
  type Settings = seq<Setting>

  function Keys(st: Settings): (ks: seq<string>)
    ensures |ks| == |st|
    ensures forall i :: 0 <= i < |st| ==> ks[i] == st[i].key
  {
    if |st| == 0 then [] else [st[0].key] + Keys(st[1..])
  }

  /** An object has each property once. */
  predicate DistinctKeys(st: Settings)
  {
    forall i, j :: 0 <= i < j < |st| ==> st[i].key != st[j].key
  }

  /** `settings[key]`: the value stored under `key` as an own property, if any. */
  function Lookup(st: Settings, key: string): (r: Option<JsNumber>)
    ensures r.None? <==> key !in Keys(st)
    ensures r.Some? ==> Setting(key, r.value) in st
  {
    if |st| == 0 then None
    else if st[0].key == key then Some(st[0].value)
    else Lookup(st[1..], key)
  }

  /** In an object with distinct keys, a stored property is what lookup finds. */
  lemma LookupStored(st: Settings, i: nat)
    requires DistinctKeys(st) && i < |st|
    ensures Lookup(st, st[i].key) == Some(st[i].value)
  {
    if i > 0 {
      assert st[1..][i - 1] == st[i];
      LookupStored(st[1..], i - 1);
    }
  }

  /** `settings[key] = value`: an existing property keeps its place and takes
      the new value; a new one goes at the end. */
  function Store(st: Settings, key: string, value: JsNumber): (r: Settings)
    ensures key in Keys(st) ==> Keys(r) == Keys(st)
    ensures key !in Keys(st) ==> r == st + [Setting(key, value)]
  {
    if |st| == 0 then [Setting(key, value)]
    else if st[0].key == key then
      var r := [Setting(key, value)] + st[1..];
      assert r[1..] == st[1..];
      r
    else
      var rest := Store(st[1..], key, value);
      var r := [st[0]] + rest;
      assert r[1..] == rest;
      r
  }

  /** After storing, lookup finds the stored value under its key and the old
      value under every other key. */
  lemma {:induction false} StoreLookup(st: Settings, key: string, value: JsNumber, k: string)
    ensures Lookup(Store(st, key, value), k) == if k == key then Some(value) else Lookup(st, k)
  {
    if |st| > 0 && st[0].key != key {
      var rest := Store(st[1..], key, value);
      assert Store(st, key, value)[1..] == rest;
      StoreLookup(st[1..], key, value, k);
    }
  }

  /** Storing keeps every key once. */
  lemma StoreKeepsDistinct(st: Settings, key: string, value: JsNumber)
    requires DistinctKeys(st)
    ensures DistinctKeys(Store(st, key, value))
  {
    var r := Store(st, key, value);
    if key in Keys(st) {
      forall i, j | 0 <= i < j < |r|
        ensures r[i].key != r[j].key
      {
        assert r[i].key == Keys(r)[i] == Keys(st)[i] == st[i].key;
        assert r[j].key == Keys(r)[j] == Keys(st)[j] == st[j].key;
      }
    } else {
      forall i, j | 0 <= i < j < |r|
        ensures r[i].key != r[j].key
      {
        if j == |st| {
          assert st[i].key in Keys(st);
        }
      }
    }
  }

  /** A key that can be written between quotes in a settings string and
      read back unchanged. */
  predicate CleanKey(k: string)
  {
    '\'' !in k && '"' !in k && ',' !in k && ' ' !in k
  }

  predicate CleanKeys(st: Settings)
  {
    forall k :: k in Keys(st) ==> CleanKey(k)
  }

  lemma StoreKeepsClean(st: Settings, key: string, value: JsNumber)
    requires CleanKeys(st) && CleanKey(key)
    ensures CleanKeys(Store(st, key, value))
  {
    if key !in Keys(st) {
      var r := Store(st, key, value);
      assert Keys(r) == Keys(st) + [key];
    }
  }

  // ---------------------------------------------------------------------------
  // parse

  /** `key.replace(/['"]/g, "")`. */
  function StripQuotes(s: string): (r: string)
    ensures '\'' !in r && '"' !in r
    ensures forall c :: c in r ==> c in s
  {
    RemovedStaysAbsent(RemoveAll(s, '\''), '"', '\'');
    RemovedSubset(s, '\'');
    RemovedSubset(RemoveAll(s, '\''), '"');
    RemoveAll(RemoveAll(s, '\''), '"')
  }

  lemma {:induction false} RemovedStaysAbsent(s: string, c: char, d: char)
    requires d !in s
    ensures d !in RemoveAll(s, c)
  {
    if |s| > 0 {
      RemovedStaysAbsent(s[1..], c, d);
      assert s == [s[0]] + s[1..];
    }
  }

  lemma RemovedSubset(s: string, c: char)
    ensures forall d :: d in RemoveAll(s, c) ==> d in s
  {
    forall d | d !in s
      ensures d !in RemoveAll(s, c)
    {
      RemovedStaysAbsent(s, c, d);
    }
  }

  /** One comma-separated part of a settings string: trimmed and split at
      spaces, it yields an entry when its first two pieces are non-empty. The
      key loses its quote characters; the value text is not yet parsed. */
  function ParseEntry(part: string): (e: Option<(string, string)>)
    ensures e.Some? ==> e.value.1 != "" && ' ' !in e.value.1
    ensures e.Some? && ',' !in part ==> CleanKey(e.value.0)
  {
    var pieces := Split(Trim(part), ' ');
    if pieces[0] != "" && |pieces| >= 2 && pieces[1] != "" then
      assert ',' in pieces[0] ==> ',' in part by {
        if ',' in pieces[0] {
          PieceInside(Trim(part), ' ', 0, ',');
          TrimInside(part, ',');
        }
      }
      Some((StripQuotes(pieces[0]), pieces[1]))
    else
      None
  }

  /** A character of a piece of `s` is a character of `s`. */
  lemma PieceInside(s: string, sep: char, i: nat, c: char)
    requires i < |Split(s, sep)| && c in Split(s, sep)[i]
    ensures c in s
  {
    JoinContains(Split(s, sep), sep, i, c);
  }

  lemma {:induction false} JoinContains(pieces: seq<string>, sep: char, i: nat, c: char)
    requires i < |pieces| && c in pieces[i]
    ensures c in Join(pieces, sep)
  {
    if |pieces| > 1 {
      if i > 0 {
        JoinContains(pieces[1..], sep, i - 1, c);
      }
      assert Join(pieces, sep) == pieces[0] + [sep] + Join(pieces[1..], sep);
    }
  }

  lemma TrimInside(s: string, c: char)
    requires c in Trim(s)
    ensures c in s
  {
    var r := Trim(s);
    var k :| 0 <= k < |r| && r[k] == c;
    assert s[LeadingSpace(s) + k] == c;
  }

  /** The settings a sequence of parts builds, part by part as `forEach`
      visits them; a later duplicate key overwrites the earlier value. */
  function ParseParts(parseFloat: string -> JsNumber, parts: seq<string>): (st: Settings)
    ensures DistinctKeys(st)
    ensures (forall p :: p in parts ==> ',' !in p) ==> CleanKeys(st)
  {
    if |parts| == 0 then []
    else
      var prev := ParseParts(parseFloat, parts[..|parts| - 1]);
      assert forall p :: p in parts[..|parts| - 1] ==> p in parts;
      match ParseEntry(parts[|parts| - 1])
      case None => prev
      case Some(entry) =>
        StoreKeepsDistinct(prev, entry.0, parseFloat(entry.1));
        if forall p :: p in parts ==> ',' !in p then
          StoreKeepsClean(prev, entry.0, parseFloat(entry.1));
          Store(prev, entry.0, parseFloat(entry.1))
        else
          Store(prev, entry.0, parseFloat(entry.1))
  }

  /** `parse(str)`: its keys are distinct and can be written back. */
  function ParseSpec(parseFloat: string -> JsNumber, str: string): (st: Settings)
    ensures DistinctKeys(st) && CleanKeys(st)
  {
    ParseParts(parseFloat, Split(str, ','))
  }

  /** The `parse` helper: the settings object filled in by `forEach` over the
      comma-separated parts. */
  method Parse(parseFloat: string -> JsNumber, str: string) returns (settings: Settings)
    ensures settings == ParseSpec(parseFloat, str)
  {
    var parts := Split(str, ',');
    settings := [];
    var i := 0;
    while i < |parts|
      invariant 0 <= i <= |parts|
      invariant settings == ParseParts(parseFloat, parts[..i])
    {
      ParsePartsStep(parseFloat, parts, i);
      var pieces := Split(Trim(parts[i]), ' ');
      if pieces[0] != "" && |pieces| >= 2 && pieces[1] != "" {
        settings := Store(settings, StripQuotes(pieces[0]), parseFloat(pieces[1]));
      }
      i := i + 1;
    }
    assert parts[..i] == parts;
  }

  /** Parsing one part more: a well-formed part stores its entry, any other
      part changes nothing. */
  lemma ParsePartsStep(parseFloat: string -> JsNumber, parts: seq<string>, i: nat)
    requires i < |parts|
    ensures ParseParts(parseFloat, parts[..i + 1])
            == match ParseEntry(parts[i])
               case None => ParseParts(parseFloat, parts[..i])
               case Some(entry) => Store(ParseParts(parseFloat, parts[..i]), entry.0, parseFloat(entry.1))
  {
    assert parts[..i + 1][..i] == parts[..i];
  }

  /** A later part that sets a key decides its value, and a key seen before
      keeps its position. */
  lemma LaterPartWins(parseFloat: string -> JsNumber, parts: seq<string>, part: string)
    requires ParseEntry(part).Some?
    ensures var key := ParseEntry(part).value.0;
            Lookup(ParseParts(parseFloat, parts + [part]), key)
              == Some(parseFloat(ParseEntry(part).value.1))
    ensures var key := ParseEntry(part).value.0;
            key in Keys(ParseParts(parseFloat, parts)) ==>
              Keys(ParseParts(parseFloat, parts + [part])) == Keys(ParseParts(parseFloat, parts))
  {
    assert (parts + [part])[..|parts|] == parts;
    var entry := ParseEntry(part).value;
    StoreLookup(ParseParts(parseFloat, parts), entry.0, parseFloat(entry.1), entry.0);
  }

  /** A part that is not a key and a value leaves the settings unchanged. */
  lemma MalformedPartIgnored(parseFloat: string -> JsNumber, parts: seq<string>, part: string)
    requires ParseEntry(part).None?
    ensures ParseParts(parseFloat, parts + [part]) == ParseParts(parseFloat, parts)
  {
    assert (parts + [part])[..|parts|] == parts;
  }

  /** Quoting a key and stripping the quotes gives the key back. */
  lemma QuotesStripped(k: string)
    requires '\'' !in k && '"' !in k
    ensures StripQuotes("'" + k + "'") == k
  {
    RemoveAllAppend("'" + k, "'", '\'');
    RemoveAllAppend("'", k, '\'');
    RemoveAbsent(k, '\'');
    RemoveOnly('\'');
    assert RemoveAll("'" + k + "'", '\'') == k;
    RemoveAbsent(k, '"');
  }

  /** Number text that `parse` reads back as one value. */
  predicate CleanNumber(w: string)
  {
    w != "" && ',' !in w && ' ' !in w && !IsJsSpace(w[|w| - 1])
  }

  /** A quoted key, a space and a number, with or without a space in front,
      parse as that key and that number. */
  lemma ParseEntryRendered(pad: string, k: string, w: string)
    requires pad == "" || pad == " "
    requires CleanKey(k) && CleanNumber(w)
    ensures ParseEntry(pad + ("'" + k + "' " + w)) == Some((k, w))
  {
    var quoted := "'" + k + "'";
    var entry := "'" + k + "' " + w;
    QuotedEntry(k, w);
    TrimPadded(pad, entry);
    SplitJoin([quoted, w], ' ');
    QuotesStripped(k);
  }

  /** The rendered entry is the quoted key and the number joined by a space;
      neither holds a space. */
  lemma QuotedEntry(k: string, w: string)
    requires CleanKey(k) && CleanNumber(w)
    ensures var entry := "'" + k + "' " + w;
            && entry[0] == '\'' && entry[|entry| - 1] == w[|w| - 1]
            && Join(["'" + k + "'", w], ' ') == entry
            && ' ' !in "'" + k + "'"
  {
    var quoted := "'" + k + "'";
    var entry := "'" + k + "' " + w;
    assert entry == quoted + [' '] + w;
    assert forall i :: 0 <= i < |quoted| ==> quoted[i] == '\'' || quoted[i] in k;
  }

  /** A part with a key and no value is ignored. */
  lemma KeyWithoutValueIgnored(part: string)
    requires ' ' !in Trim(part)
    ensures ParseEntry(part) == None
  {
    CountAbsent(Trim(part), ' ');
  }

  /** Which parts `parse` accepts, and what it takes from them: after any
      white space, a key without spaces, one space, a value without spaces,
      and then nothing or anything after another space. The key loses its
      quotes, the value is the second piece as written, and the third piece
      and beyond are ignored. */
  lemma ParseEntryFields(pad: string, k: string, w: string, tail: string)
    requires forall i :: 0 <= i < |pad| ==> IsJsSpace(pad[i])
    requires k != "" && ' ' !in k && !IsJsSpace(k[0])
    requires w != "" && ' ' !in w && !IsJsSpace(w[|w| - 1])
    requires tail == "" || tail[0] == ' '
    ensures ParseEntry(pad + k + " " + w + tail) == Some((StripQuotes(k), w))
  {
    var m := k + " " + w;
    var part := pad + k + " " + w + tail;
    Regroup(pad, k, w, tail);
    TrimAround(pad, m, tail);
    var rest := tail[..|tail| - TrailingSpace(pad + m + tail)];
    SplitKeyValue(k, w, rest);
    ParseEntryAccepts(part);
  }

  /** Two spaces between key and value leave an empty second piece, and
      the part is dropped. */
  lemma ParseEntryDoubledSpace(pad: string, k: string, w: string)
    requires forall i :: 0 <= i < |pad| ==> IsJsSpace(pad[i])
    requires k != "" && ' ' !in k && !IsJsSpace(k[0])
    requires w != "" && !IsJsSpace(w[|w| - 1])
    ensures ParseEntry(pad + k + "  " + w) == None
  {
    var m := k + ("  " + w);
    var part := pad + k + "  " + w;
    assert part == pad + m;
    assert m[|m| - 1] == w[|w| - 1];
    TrimPadded(pad, m);
    SplitDoubled(k, w);
    ParseEntryRejects(part);
  }

  // Unfolding steps for the parsing lemmas above (and so for `ParseRender`):
  // which pieces `ParseEntry` accepts, and how a key and a value split.

  lemma ParseEntryAccepts(part: string)
    requires var pieces := Split(Trim(part), ' ');
             pieces[0] != "" && |pieces| >= 2 && pieces[1] != ""
    ensures var pieces := Split(Trim(part), ' ');
            ParseEntry(part) == Some((StripQuotes(pieces[0]), pieces[1]))
  {
  }

  lemma ParseEntryRejects(part: string)
    requires var pieces := Split(Trim(part), ' ');
             |pieces| >= 2 && pieces[1] == ""
    ensures ParseEntry(part) == None
  {
  }

  lemma Regroup(pad: string, k: string, w: string, tail: string)
    ensures pad + k + " " + w + tail == pad + (k + " " + w) + tail
  {
  }

  lemma SplitKeyValue(k: string, w: string, rest: string)
    requires k != "" && ' ' !in k && w != "" && ' ' !in w
    requires rest == "" || rest[0] == ' '
    ensures var pieces := Split(k + " " + w + rest, ' ');
            |pieces| >= 2 && pieces[0] == k && pieces[1] == w
  {
    assert k + " " + w + rest == k + (" " + (w + rest));
    SplitAfterPiece(k, " " + (w + rest), ' ');
    assert (" " + (w + rest))[1..] == w + rest;
    SplitAfterPiece(w, rest, ' ');
    assert Split(rest, ' ')[0] == "";
    assert k + "" == k && w + "" == w;
  }

  lemma SplitDoubled(k: string, w: string)
    requires k != "" && ' ' !in k
    ensures var pieces := Split(k + ("  " + w), ' ');
            |pieces| >= 2 && pieces[1] == ""
  {
    SplitAfterPiece(k, "  " + w, ' ');
    assert ("  " + w)[1..] == " " + w;
    assert (" " + w)[1..] == w;
  }

  lemma {:induction false} CountAbsent(s: string, c: char)
    requires c !in s
    ensures Count(s, c) == 0
  {
    if |s| > 0 {
      assert s[1..] == s[1..];
      assert forall d :: d in s[1..] ==> d in s;
      CountAbsent(s[1..], c);
    }
  }

  // ---------------------------------------------------------------------------
  // interpolation

  /** `toSettings[key] || start`: a missing key, 0 or NaN falls back to the
      start value. */
  function EndValue(found: Option<JsNumber>, start: JsNumber): (end: JsNumber)
    ensures end == start || (found.Some? && end == found.value)
    ensures end.NaN? ==> start.NaN?
    ensures end == Finite(0.0) ==> start == Finite(0.0)
    ensures found.Some? && found.value.Finite? && found.value.value != 0.0 ==> end == found.value
  {
    if found.None? || found.value == NaN || found.value == Finite(0.0) then start else found.value
  }

  /** `start + (end - start) * factor`, NaN if either end is NaN. */
  function Lerp(start: JsNumber, end: JsNumber, factor: real): (current: JsNumber)
    ensures start.NaN? || end.NaN? <==> current.NaN?
  {
    if start.NaN? || end.NaN? then NaN
    else Finite(start.value + Times(end.value - start.value, factor))
  }

  /** One pass of the `for…in` body: the start value moved `factor` of the
      way towards its end value. */
  function InterpolateOne(s: Setting, to: Settings, factor: real): (r: Setting)
    ensures r.key == s.key
  {
    Setting(s.key, Lerp(s.value, EndValue(Lookup(to, s.key), s.value), factor))
  }

  /** The interpolated settings: `from`'s keys in `from`'s order, each value
      moved `factor` of the way towards the matching `to` value; keys only in
      `to` play no part. */
  function Interpolated(from: Settings, to: Settings, factor: real): (r: Settings)
    ensures Keys(r) == Keys(from)
    ensures DistinctKeys(from) ==> DistinctKeys(r)
  {
    var r := seq(|from|, i requires 0 <= i < |from| => InterpolateOne(from[i], to, factor));
    assert Keys(r) == Keys(from);
    r
  }

  /** Factor 0 reproduces `from`; factor 1 gives each finite key its
      fallback-resolved `to` value. */
  lemma InterpolateEndpoints(from: Settings, to: Settings)
    ensures Interpolated(from, to, 0.0) == from
    ensures forall i :: 0 <= i < |from| && from[i].value.Finite? ==>
              Interpolated(from, to, 1.0)[i].value == EndValue(Lookup(to, from[i].key), from[i].value)
  {
    var zero := Interpolated(from, to, 0.0);
    forall i | 0 <= i < |from|
      ensures zero[i] == from[i]
    {
      var start := from[i].value;
      var end := EndValue(Lookup(to, from[i].key), start);
      assert start.Finite? ==> end.Finite?;
      if start.Finite? {
        assert Times(end.value - start.value, 0.0) == 0.0;
      }
    }
    var one := Interpolated(from, to, 1.0);
    forall i | 0 <= i < |from| && from[i].value.Finite?
      ensures one[i].value == EndValue(Lookup(to, from[i].key), from[i].value)
    {
      var s := from[i].value.value;
      var end := EndValue(Lookup(to, from[i].key), from[i].value);
      assert end.Finite?;
      assert Times(end.value - s, 1.0) == end.value - s;
    }
  }

  /** Factor 1 moves a finite setting all the way to a truthy finite value
      found under its key in `to`. */
  lemma InterpolateReachesTarget(from: Settings, to: Settings, i: nat, v: real)
    requires i < |from| && from[i].value.Finite?
    requires Lookup(to, from[i].key) == Some(Finite(v)) && v != 0.0
    ensures Interpolated(from, to, 1.0)[i].value == Finite(v)
  {
    InterpolateEndpoints(from, to);
  }

  /** A key that `to` lacks, or holds as 0 or NaN, keeps its start value at
      every factor. */
  lemma FalsyTargetKeepsStart(from: Settings, to: Settings, factor: real, i: nat)
    requires i < |from|
    requires var found := Lookup(to, from[i].key);
             found.None? || found == Some(NaN) || found == Some(Finite(0.0))
    ensures Interpolated(from, to, factor)[i] == from[i]
  {
    var s := from[i].value;
    assert Interpolated(from, to, factor)[i] == InterpolateOne(from[i], to, factor);
    assert EndValue(Lookup(to, from[i].key), s) == s;
    if s.Finite? {
      assert Times(s.value - s.value, factor) == 0.0;
    }
  }

  /** For a factor in [0, 1] a finite value lies between its start and its
      end. */
  lemma InterpolatedBetween(from: Settings, to: Settings, factor: real, i: nat)
    requires 0.0 <= factor <= 1.0 && i < |from|
    requires from[i].value.Finite?
    ensures var start := from[i].value.value;
            var end := EndValue(Lookup(to, from[i].key), from[i].value);
            var current := Interpolated(from, to, factor)[i].value;
            current.Finite? && end.Finite?
            && (start <= end.value ==> start <= current.value <= end.value)
            && (end.value <= start ==> end.value <= current.value <= start)
  {
    var e := EndValue(Lookup(to, from[i].key), from[i].value);
    assert Interpolated(from, to, factor)[i] == InterpolateOne(from[i], to, factor);
    assert e.Finite?;
    LerpBetween(from[i].value, e, factor);
  }

  lemma LerpBetween(start: JsNumber, end: JsNumber, factor: real)
    requires 0.0 <= factor <= 1.0 && start.Finite? && end.Finite?
    ensures var c := Lerp(start, end, factor);
            c.Finite?
            && (start.value <= end.value ==> start.value <= c.value <= end.value)
            && (end.value <= start.value ==> end.value <= c.value <= start.value)
  {
    LerpRealBetween(start.value, end.value, factor);
  }

  /** `'${key}' ${current}`: for a key and a printed number that `parse`
      can take apart, the entry parses back to that key and that text. */
  function RenderEntry(show: JsNumber -> string, s: Setting): (r: string)
    ensures CleanKey(s.key) && CleanNumber(show(s.value)) ==> ParseEntry(r) == Some((s.key, show(s.value)))
  {
    var r := "'" + s.key + "' " + show(s.value);
    if CleanKey(s.key) && CleanNumber(show(s.value)) then
      ParseEntryRendered("", s.key, show(s.value));
      assert "" + r == r;
      r
    else r
  }

  function RenderedEntries(show: JsNumber -> string, st: Settings): (rs: seq<string>)
    ensures |rs| == |st|
  {
    seq(|st|, i requires 0 <= i < |st| => RenderEntry(show, st[i]))
  }

  /** `result.join(", ")`: nothing for no entries; otherwise, split at
      its commas, the entries again, each after the first behind one space. */
  function Render(show: JsNumber -> string, st: Settings): (r: string)
    ensures |st| == 0 ==> r == ""
    ensures |st| > 0 ==> r == Join(Padded(show, st), ',')
  {
    if |st| == 0 then ""
    else
      RenderSplits(show, st);
      JoinWith(RenderedEntries(show, st), ", ")
  }

  /** `interpolateSettings(from, to, factor)`: parse both strings, then, in a
      `for…in` over the start settings, push each rendered interpolated entry
      and join them. */
  method InterpolateSettings(parseFloat: string -> JsNumber, show: JsNumber -> string,
                             from: string, to: string, factor: real) returns (r: string)
    ensures r == Render(show, Interpolated(ParseSpec(parseFloat, from), ParseSpec(parseFloat, to), factor))
  {
    var fromSettings := Parse(parseFloat, from);
    var toSettings := Parse(parseFloat, to);
    var result: seq<string> := [];
    var i := 0;
    while i < |fromSettings|
      invariant 0 <= i <= |fromSettings|
      invariant result == RenderedEntries(show, Interpolated(fromSettings[..i], toSettings, factor))
    {
      var key := fromSettings[i].key;
      var start := fromSettings[i].value;
      var end := EndValue(Lookup(toSettings, key), start);
      var current := Lerp(start, end, factor);
      InterpolatedSnoc(show, fromSettings, toSettings, factor, i);
      result := result + [RenderEntry(show, Setting(key, current))];
      i := i + 1;
    }
    assert fromSettings[..i] == fromSettings;
    r := JoinWith(result, ", ");
  }

  // One more entry of the loop in `InterpolateSettings`: the rendered
  // interpolation of a prefix grows by the entry the loop body pushes.

  lemma InterpolatedSnoc(show: JsNumber -> string, from: Settings, to: Settings, factor: real, i: nat)
    requires i < |from|
    ensures RenderedEntries(show, Interpolated(from[..i + 1], to, factor))
            == RenderedEntries(show, Interpolated(from[..i], to, factor))
               + [RenderEntry(show, InterpolateOne(from[i], to, factor))]
  {
    InterpolatedPrefixSnoc(from, to, factor, i);
    RenderedEntriesSnoc(show, Interpolated(from[..i], to, factor), InterpolateOne(from[i], to, factor));
  }

  lemma InterpolatedPrefixSnoc(from: Settings, to: Settings, factor: real, i: nat)
    requires i < |from|
    ensures Interpolated(from[..i + 1], to, factor)
            == Interpolated(from[..i], to, factor) + [InterpolateOne(from[i], to, factor)]
  {
    var longer := Interpolated(from[..i + 1], to, factor);
    var shorter := Interpolated(from[..i], to, factor);
    var x := InterpolateOne(from[i], to, factor);
    forall j | 0 <= j < i + 1
      ensures longer[j] == (shorter + [x])[j]
    {
      assert from[..i + 1][j] == from[j];
      if j < i {
        assert from[..i][j] == from[j];
      }
    }
  }

  lemma RenderedEntriesSnoc(show: JsNumber -> string, st: Settings, x: Setting)
    ensures RenderedEntries(show, st + [x]) == RenderedEntries(show, st) + [RenderEntry(show, x)]
  {
    var longer := RenderedEntries(show, st + [x]);
    assert forall j :: 0 <= j < |st| ==> longer[j] == RenderEntry(show, st[j]);
  }

  // ---------------------------------------------------------------------------
  // rendering and parsing back

  /** The parts a rendered settings string splits into at commas: the first
      entry as written, every later one after the space of ", ". */
  function Padded(show: JsNumber -> string, st: Settings): (ps: seq<string>)
    ensures |ps| == |st|
  {
    seq(|st|, i requires 0 <= i < |st| => (if i == 0 then "" else " ") + RenderEntry(show, st[i]))
  }

  /** A number whose printed form has no spaces or commas and is read back
      by `parseFloat` as the same number. */
  predicate ReadsBack(parseFloat: string -> JsNumber, show: JsNumber -> string, x: JsNumber)
  {
    CleanNumber(show(x)) && parseFloat(show(x)) == x
  }

  /** What `interpolateSettings` writes, `parse` reads back: for keys that
      came from `parse` and numbers printed without spaces or commas and read
      back by `parseFloat` as the same number, parsing the rendered settings
      gives the settings. */
  lemma ParseRender(parseFloat: string -> JsNumber, show: JsNumber -> string, st: Settings)
    requires DistinctKeys(st) && CleanKeys(st)
    requires forall i :: 0 <= i < |st| ==>
               ReadsBack(parseFloat, show, st[i].value)
    ensures ParseSpec(parseFloat, Render(show, st)) == st
  {
    if |st| == 0 {
      ParseEmpty(parseFloat, show, st);
    } else {
      var padded := Padded(show, st);
      PaddedNoComma(show, st);
      SplitJoin(padded, ',');
      ParsePadded(parseFloat, show, st, |st|);
      assert padded[..|st|] == padded;
      assert st[..|st|] == st;
    }
  }

  /** No settings render as the empty string, which parses as no settings. */
  lemma ParseEmpty(parseFloat: string -> JsNumber, show: JsNumber -> string, st: Settings)
    requires |st| == 0
    ensures ParseSpec(parseFloat, Render(show, st)) == []
  {
    assert Render(show, st) == "";
    assert Split("", ',') == [""];
    assert Trim("") == "";
    assert Split("", ' ') == [""];
  }

  /** Joining with ", " is joining with "," the entries after the first
      prefixed by a space. */
  lemma RenderSplits(show: JsNumber -> string, st: Settings)
    requires |st| > 0
    ensures JoinWith(RenderedEntries(show, st), ", ") == Join(Padded(show, st), ',')
  {
    var es := RenderedEntries(show, st);
    var padded := Padded(show, st);
    JoinWithPrefixed(es, ',', " ");
    assert [','] + " " == ", ";
    var joined := [es[0]] + seq(|es| - 1, i requires 0 <= i < |es| - 1 => " " + es[i + 1]);
    forall i | 0 <= i < |st|
      ensures joined[i] == padded[i]
    {
      if i == 0 {
        assert "" + es[0] == es[0];
      }
    }
    assert joined == padded;
  }

  lemma PaddedNoComma(show: JsNumber -> string, st: Settings)
    requires CleanKeys(st)
    requires forall i :: 0 <= i < |st| ==> CleanNumber(show(st[i].value))
    ensures forall i :: 0 <= i < |st| ==> ',' !in Padded(show, st)[i]
  {
    forall i | 0 <= i < |st|
      ensures ',' !in Padded(show, st)[i]
    {
      PaddedEntryNoComma(show, st, i);
    }
  }

  lemma PaddedEntryNoComma(show: JsNumber -> string, st: Settings, i: nat)
    requires CleanKeys(st) && i < |st| && CleanNumber(show(st[i].value))
    ensures ',' !in Padded(show, st)[i]
  {
    assert st[i].key in Keys(st);
    var pad := if i == 0 then "" else " ";
    var e := RenderEntry(show, st[i]);
    assert Padded(show, st)[i] == pad + e;
    EntryNoComma(st[i].key, show(st[i].value));
  }

  /** A quoted clean key and a number without commas contain no comma. */
  lemma EntryNoComma(k: string, w: string)
    requires ',' !in k && ',' !in w
    ensures ',' !in "'" + k + "' " + w
    ensures ',' !in " " + ("'" + k + "' " + w)
  {
    var p := "'" + k + "' " + w;
    forall j | 0 <= j < |p|
      ensures p[j] != ','
    {
      if 1 <= j < 1 + |k| {
        assert p[j] == k[j - 1];
      } else if j >= |k| + 3 {
        assert p[j] == w[j - |k| - 3];
      }
    }
    assert forall j :: 0 <= j < |p| ==> (" " + p)[j + 1] == p[j];
  }

  // The induction behind `ParseRender`: parsing the first n padded parts
  // gives the first n settings. `PrefixParts`, `PartsStep` and `PrefixSnoc`
  // move between a prefix and its one-longer extension.

  lemma {:induction false} ParsePadded(parseFloat: string -> JsNumber, show: JsNumber -> string, st: Settings, n: nat)
    requires n <= |st|
    requires DistinctKeys(st) && CleanKeys(st)
    requires forall i :: 0 <= i < |st| ==> ReadsBack(parseFloat, show, st[i].value)
    ensures ParseParts(parseFloat, Padded(show, st)[..n]) == st[..n]
  {
    if n > 0 {
      ParsePadded(parseFloat, show, st, n - 1);
      PaddedStep(parseFloat, show, st, n);
    }
  }

  /** One step of the induction: the n-th part stores the n-th setting,
      whose key is new. */
  lemma PaddedStep(parseFloat: string -> JsNumber, show: JsNumber -> string, st: Settings, n: nat)
    requires 0 < n <= |st|
    requires DistinctKeys(st) && CleanKeys(st)
    requires ReadsBack(parseFloat, show, st[n - 1].value)
    requires ParseParts(parseFloat, Padded(show, st)[..n - 1]) == st[..n - 1]
    ensures ParseParts(parseFloat, Padded(show, st)[..n]) == st[..n]
  {
    var padded := Padded(show, st);
    PrefixParts(padded, n);
    PaddedEntryParses(show, st, n - 1);
    PartsStep(parseFloat, padded[..n], st, n, show(st[n - 1].value));
  }

  lemma PrefixParts(parts: seq<string>, n: nat)
    requires 0 < n <= |parts|
    ensures |parts[..n]| == n
    ensures parts[..n][..n - 1] == parts[..n - 1] && parts[..n][n - 1] == parts[n - 1]
  {
  }

  lemma PartsStep(parseFloat: string -> JsNumber, parts: seq<string>, st: Settings, n: nat, w: string)
    requires 0 < n == |parts| <= |st|
    requires DistinctKeys(st)
    requires ParseEntry(parts[n - 1]) == Some((st[n - 1].key, w)) && parseFloat(w) == st[n - 1].value
    requires ParseParts(parseFloat, parts[..n - 1]) == st[..n - 1]
    ensures ParseParts(parseFloat, parts) == st[..n]
  {
    var s := st[n - 1];
    PrefixSnoc(st, n);
    ParsePartsSnoc(parseFloat, parts, s.key, w);
    FreshKey(st, n - 1);
  }

  lemma PrefixSnoc(st: Settings, n: nat)
    requires 0 < n <= |st|
    ensures st[..n] == st[..n - 1] + [st[n - 1]]
  {
  }

  /** Parsing one more well-formed part stores its key and value. */
  lemma ParsePartsSnoc(parseFloat: string -> JsNumber, parts: seq<string>, k: string, w: string)
    requires |parts| > 0 && ParseEntry(parts[|parts| - 1]) == Some((k, w))
    ensures ParseParts(parseFloat, parts) == Store(ParseParts(parseFloat, parts[..|parts| - 1]), k, parseFloat(w))
  {
  }

  lemma PaddedEntryParses(show: JsNumber -> string, st: Settings, i: nat)
    requires i < |st| && CleanKeys(st) && CleanNumber(show(st[i].value))
    ensures ParseEntry(Padded(show, st)[i]) == Some((st[i].key, show(st[i].value)))
  {
    assert st[i].key in Keys(st);
    var pad := if i == 0 then "" else " ";
    assert Padded(show, st)[i] == pad + ("'" + st[i].key + "' " + show(st[i].value));
    ParseEntryRendered(pad, st[i].key, show(st[i].value));
  }

  lemma FreshKey(st: Settings, i: nat)
    requires DistinctKeys(st) && i < |st|
    ensures st[i].key !in Keys(st[..i])
  {
  }

  /** The string `interpolateSettings` returns parses back to the settings it
      was rendered from, whenever the printed interpolated numbers read back
      through `parseFloat` and hold no spaces or commas. */
  lemma InterpolateThenParse(parseFloat: string -> JsNumber, show: JsNumber -> string,
                             from: string, to: string, factor: real)
    requires var st := Interpolated(ParseSpec(parseFloat, from), ParseSpec(parseFloat, to), factor);
             forall i :: 0 <= i < |st| ==> ReadsBack(parseFloat, show, st[i].value)
    ensures var st := Interpolated(ParseSpec(parseFloat, from), ParseSpec(parseFloat, to), factor);
            ParseSpec(parseFloat, Render(show, st)) == st
  {
    var st := Interpolated(ParseSpec(parseFloat, from), ParseSpec(parseFloat, to), factor);
    ParseRender(parseFloat, show, st);
  }

  // ---------------------------------------------------------------------------
  // pointer proximity and glyphs

  /** `Math.max(0, 1 - distance / radius)` for a distance from the pointer to
      a glyph's centre: 1 on the centre, falling linearly to 0 at `radius`. */
  function Proximity(distance: real, radius: real): (p: real)
    requires distance >= 0.0 && radius > 0.0
    ensures 0.0 <= p <= 1.0
    ensures p == 0.0 <==> distance >= radius
    ensures distance <= radius ==> p * radius == radius - distance
  {
    var ratio := distance / radius;
    assert ratio * radius == distance;
    assert distance >= radius <==> ratio >= 1.0;
    Max(0.0, 1.0 - ratio)
  }

  /** The falloff option: `"exponential"` squares the proximity
      (`Math.pow(proximity, 2)`), anything else keeps it linear. Either way a
      proximity in [0, 1] stays in [0, 1], is never raised, and keeps its two
      ends: untouched glyphs stay untouched, the nearest stays fully on. */
  function Falloff(proximity: real, falloff: string): (p: real)
    ensures falloff != "exponential" ==> p == proximity
    ensures 0.0 <= proximity <= 1.0 ==>
              && 0.0 <= p <= proximity
              && (p == 0.0 <==> proximity == 0.0)
              && (p == 1.0 <==> proximity == 1.0)
  {
    if falloff != "exponential" then proximity
    else if 0.0 <= proximity <= 1.0 then
      SquareBounds(proximity);
      Times(proximity, proximity)
    else Times(proximity, proximity)
  }

  /** A glyph nearer the pointer is never less affected. */
  lemma ProximityMonotone(d1: real, d2: real, radius: real, falloff: string)
    requires 0.0 <= d1 <= d2 && radius > 0.0
    ensures Falloff(Proximity(d2, radius), falloff) <= Falloff(Proximity(d1, radius), falloff)
  {
    var p1 := Proximity(d1, radius);
    var p2 := Proximity(d2, radius);
    DivideMonotone(d1, d2, radius);
    assert p2 <= p1;
    if falloff == "exponential" {
      SquareMonotone(p2, p1);
    }
  }

  /** `label.split("")` rendered: one glyph per character, a space shown as a
      no-break space so that it keeps its width. */
  function Glyphs(text: string): (g: string)
    ensures |g| == |text|
    ensures ' ' !in g
  {
    seq(|text|, i requires 0 <= i < |text| => if text[i] == ' ' then '\U{00A0}' else text[i])
  }

  /** The glyphs give the label back once no-break spaces turn into spaces
      again, for a label that had no no-break space of its own. */
  lemma GlyphsRestoreLabel(text: string)
    requires '\U{00A0}' !in text
    ensures seq(|text|, i requires 0 <= i < |text| =>
              if Glyphs(text)[i] == '\U{00A0}' then ' ' else Glyphs(text)[i]) == text
  {
  }
}
