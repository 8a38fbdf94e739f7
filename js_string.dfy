/** The few JavaScript string operations the portfolio's text utilities rely on:
    `split` with a one-character separator, `join`, `trim`, and character removal.
    Strings are sequences of characters; JavaScript's UTF-16 code units are not
    distinguished from Unicode scalar values here. */
module JsString {

  /** Number of occurrences of `c` in `s`. */
  function Count(s: string, c: char): nat
  {
    if |s| == 0 then 0 else (if s[0] == c then 1 else 0) + Count(s[1..], c)
  }

  /** `pieces.join(sep)` for a one-character separator; `[].join(sep)` is "". */
  function Join(pieces: seq<string>, sep: char): string
  {
    if |pieces| == 0 then ""
    else if |pieces| == 1 then pieces[0]
    else pieces[0] + [sep] + Join(pieces[1..], sep)
  }

  /** `pieces.join(sep)` for a separator of any length. */
  function JoinWith(pieces: seq<string>, sep: string): string
  {
    if |pieces| == 0 then ""
    else if |pieces| == 1 then pieces[0]
    else pieces[0] + sep + JoinWith(pieces[1..], sep)
  }

  /** Joining with a separator that starts with `c` is joining with `c` alone
      once the rest of the separator is put in front of every later piece. */
  lemma {:induction false} JoinWithPrefixed(pieces: seq<string>, c: char, pad: string)
    requires |pieces| > 0
    ensures JoinWith(pieces, [c] + pad)
            == Join([pieces[0]] + seq(|pieces| - 1, i requires 0 <= i < |pieces| - 1 => pad + pieces[i + 1]), c)
  {
    if |pieces| > 1 {
      var padded := seq(|pieces| - 2, i requires 0 <= i < |pieces| - 2 => pad + pieces[1..][i + 1]);
      JoinWithPrefixed(pieces[1..], c, pad);
      var whole := [pieces[0]] + seq(|pieces| - 1, i requires 0 <= i < |pieces| - 1 => pad + pieces[i + 1]);
      assert whole[1..] == [pad + pieces[1]] + padded;
      assert JoinWith(pieces[1..], [c] + pad) == Join([pieces[1..][0]] + padded, c);
      JoinPrefix(pad, [pieces[1]] + padded, c);
    }
  }

  /** Putting `pad` before the first piece puts it before the joined text. */
  lemma JoinPrefix(pad: string, pieces: seq<string>, c: char)
    requires |pieces| > 0
    ensures Join([pad + pieces[0]] + pieces[1..], c) == pad + Join(pieces, c)
  {
    if |pieces| > 1 {
      assert ([pad + pieces[0]] + pieces[1..])[1..] == pieces[1..];
    }
  }

  /** `s.split(sep)`: the maximal runs between separators, in order. There is one
      more piece than there are separators, so "" gives [""] and a leading,
      trailing or doubled separator gives an empty piece. */
  function Split(s: string, sep: char): (pieces: seq<string>)
    ensures |pieces| == Count(s, sep) + 1
    ensures forall i :: 0 <= i < |pieces| ==> sep !in pieces[i]
    ensures Join(pieces, sep) == s
  {
    if |s| == 0 then [""]
    else
      var rest := Split(s[1..], sep);
      if s[0] == sep then
        assert s == [sep] + s[1..];
        [""] + rest
      else
        var pieces := [[s[0]] + rest[0]] + rest[1..];
        assert pieces[1..] == rest[1..];
        assert s == [s[0]] + s[1..];
        pieces
  }

  /** Splitting a string whose first piece is `w` (free of separators). */
  lemma {:induction false} SplitAfterPiece(w: string, t: string, sep: char)
    requires sep !in w
    ensures Split(w + t, sep) == [w + Split(t, sep)[0]] + Split(t, sep)[1..]
  {
    if |w| > 0 {
      SplitAfterPiece(w[1..], t, sep);
      assert (w + t)[1..] == w[1..] + t;
      var rest := Split(w[1..] + t, sep);
      assert (w + t)[0] == w[0] != sep;
      assert Split(w + t, sep) == [[w[0]] + rest[0]] + rest[1..];
      assert [w[0]] + (w[1..] + Split(t, sep)[0]) == w + Split(t, sep)[0];
    } else {
      assert w + t == t;
      assert w + Split(t, sep)[0] == Split(t, sep)[0];
      assert [Split(t, sep)[0]] + Split(t, sep)[1..] == Split(t, sep);
    }
  }

  /** `split` inverts `join` on separator-free pieces: the two are a bijection
      between strings and non-empty lists of separator-free pieces. */
  lemma {:induction false} SplitJoin(pieces: seq<string>, sep: char)
    requires |pieces| >= 1
    requires forall i :: 0 <= i < |pieces| ==> sep !in pieces[i]
    ensures Split(Join(pieces, sep), sep) == pieces
  {
    if |pieces| == 1 {
      SplitAfterPiece(pieces[0], "", sep);
      assert pieces[0] + "" == pieces[0];
    } else {
      var tail := Join(pieces[1..], sep);
      SplitJoin(pieces[1..], sep);
      assert Join(pieces, sep) == pieces[0] + ([sep] + tail);
      SplitAfterPiece(pieces[0], [sep] + tail, sep);
      assert ([sep] + tail)[1..] == tail;
      assert Split([sep] + tail, sep) == [""] + pieces[1..];
      assert pieces[0] + "" == pieces[0];
      assert [pieces[0]] + pieces[1..] == pieces;
    }
  }

  /** `s` with every occurrence of `c` deleted. */
  function RemoveAll(s: string, c: char): (r: string)
    ensures c !in r
    ensures |r| == |s| - Count(s, c)
  {
    if |s| == 0 then "" else (if s[0] == c then "" else [s[0]]) + RemoveAll(s[1..], c)
  }

  /** A string of the one removed character leaves nothing. */
  lemma RemoveOnly(c: char)
    ensures RemoveAll([c], c) == ""
  {
    assert [c][1..] == "";
  }

  lemma {:induction false} RemoveAllAppend(a: string, b: string, c: char)
    ensures RemoveAll(a + b, c) == RemoveAll(a, c) + RemoveAll(b, c)
  {
    if |a| > 0 {
      RemoveAllAppend(a[1..], b, c);
      assert (a + b)[1..] == a[1..] + b;
    } else {
      assert a + b == b;
    }
  }

  /** Removing a character that does not occur changes nothing. */
  lemma {:induction false} RemoveAbsent(s: string, c: char)
    requires c !in s
    ensures RemoveAll(s, c) == s
  {
    if |s| > 0 {
      RemoveAbsent(s[1..], c);
      assert s == [s[0]] + s[1..];
    }
  }

  /** The characters `String.prototype.trim` removes: ECMAScript WhiteSpace
      (tab, vertical tab, form feed, space, no-break space, byte-order mark and
      the Unicode space separators) and LineTerminator. */
  predicate IsJsSpace(c: char)
  {
    c == '\t' || c == '\n' || c == '\U{000B}' || c == '\U{000C}' || c == '\r' ||
    c == ' ' || c == '\U{00A0}' || c == '\U{1680}' || ('\U{2000}' <= c <= '\U{200A}') ||
    c == '\U{2028}' || c == '\U{2029}' || c == '\U{202F}' || c == '\U{205F}' ||
    c == '\U{3000}' || c == '\U{FEFF}'
  }

  /** Length of the run of JavaScript white space at the start of `s`. */
  function LeadingSpace(s: string): (n: nat)
    ensures n <= |s|
    ensures forall i :: 0 <= i < n ==> IsJsSpace(s[i])
    ensures n < |s| ==> !IsJsSpace(s[n])
  {
    if |s| == 0 || !IsJsSpace(s[0]) then 0 else 1 + LeadingSpace(s[1..])
  }

  /** Length of the run of JavaScript white space at the end of `s`. */
  function TrailingSpace(s: string): (n: nat)
    ensures n <= |s|
    ensures forall i :: |s| - n <= i < |s| ==> IsJsSpace(s[i])
    ensures n < |s| ==> !IsJsSpace(s[|s| - n - 1])
  {
    if |s| == 0 || !IsJsSpace(s[|s| - 1]) then 0 else 1 + TrailingSpace(s[..|s| - 1])
  }

  /** `s.trim()`: the middle of `s` once white space is stripped from both ends. */
  function Trim(s: string): (r: string)
    ensures |r| <= |s|
    ensures r == "" || (!IsJsSpace(r[0]) && !IsJsSpace(r[|r| - 1]))
    ensures LeadingSpace(s) + |r| <= |s| && r == s[LeadingSpace(s)..LeadingSpace(s) + |r|]
    ensures forall k :: 0 <= k < |s| && !IsJsSpace(s[k]) ==> LeadingSpace(s) <= k < LeadingSpace(s) + |r|
  {
    var lead := LeadingSpace(s);
    if lead == |s| then ""
    else
      var trail := TrailingSpace(s);
      s[lead..|s| - trail]
  }

  /** White space put in front of text with non-space ends is what `trim`
      removes, and all it removes. */
  lemma TrimPadded(pad: string, w: string)
    requires forall i :: 0 <= i < |pad| ==> IsJsSpace(pad[i])
    requires w != "" && !IsJsSpace(w[0]) && !IsJsSpace(w[|w| - 1])
    ensures Trim(pad + w) == w
  {
    var s := pad + w;
    assert LeadingSpace(s) == |pad|;
    assert s[|pad| + |w| - 1] == w[|w| - 1];
    assert s[|pad|..] == w;
  }

  /** `trim` of text with non-space ends, white space in front and anything
      behind: the front goes, the text stays, and of what follows only the
      white space at the very end goes. */
  lemma TrimAround(pad: string, m: string, tail: string)
    requires forall i :: 0 <= i < |pad| ==> IsJsSpace(pad[i])
    requires m != "" && !IsJsSpace(m[0]) && !IsJsSpace(m[|m| - 1])
    ensures TrailingSpace(pad + m + tail) <= |tail|
    ensures Trim(pad + m + tail) == m + tail[..|tail| - TrailingSpace(pad + m + tail)]
  {
    var s := pad + m + tail;
    LeadingAt(pad, m, tail);
    LastOfMiddle(pad, m, tail);
    var t := TrimFrom(s, |pad|, |pad| + |m| - 1);
    SliceKept(pad, m, tail, t);
  }

  /** With the leading run ending at `lead` and a non-space character at
      `j`, `trim` keeps everything from `lead` to the trailing run, which
      lies after `j`. */
  lemma TrimFrom(s: string, lead: nat, j: nat) returns (t: nat)
    requires lead <= j < |s| && LeadingSpace(s) == lead && !IsJsSpace(s[j])
    ensures t == TrailingSpace(s) && t <= |s| - 1 - j
    ensures Trim(s) == s[lead..|s| - t]
  {
    t := TrailingSpace(s);
    TrailingWithin(s, j);
  }

  lemma SliceKept(pad: string, m: string, tail: string, t: nat)
    requires t <= |tail|
    ensures (pad + m + tail)[|pad|..|pad + m + tail| - t] == m + tail[..|tail| - t]
  {
    var kept := m + tail[..|tail| - t];
    assert pad + m + tail == pad + kept + tail[|tail| - t..];
    SliceMiddle(pad, kept, tail[|tail| - t..]);
  }

  /** White space in front of a non-space character is exactly the leading run. */
  lemma LeadingAt(pad: string, m: string, tail: string)
    requires forall i :: 0 <= i < |pad| ==> IsJsSpace(pad[i])
    requires m != "" && !IsJsSpace(m[0])
    ensures LeadingSpace(pad + m + tail) == |pad|
  {
    assert (pad + m + tail)[|pad|] == m[0];
  }

  lemma LastOfMiddle(pad: string, m: string, tail: string)
    requires m != ""
    ensures (pad + m + tail)[|pad| + |m| - 1] == m[|m| - 1]
  {
  }

  /** The trailing run stops before a non-space character. */
  lemma TrailingWithin(s: string, j: nat)
    requires j < |s| && !IsJsSpace(s[j])
    ensures TrailingSpace(s) <= |s| - 1 - j
  {
  }

  lemma SliceMiddle(a: string, b: string, c: string)
    ensures (a + b + c)[|a|..|a| + |b|] == b
  {
  }
}
