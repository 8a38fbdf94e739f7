/** The "Bionic Reading" formatter behind the portfolio's accessibility toggle.
    Each word of a text is cut into a bold prefix and a plain remainder.

    Two versions of the rule exist in the repository:
    - the banded rule of FRONTEND/src/hooks/useBionic.js and useBionic.jsx
      (1/2/3 bold characters, then ceil(0.4 L)), which renders nothing for an
      empty piece and a space after every word;
    - the older rule of FRONTEND/src/context/useBionic.js and
      src/context/BionicContext.jsx (1, then ceil(0.4 L)), which cuts every
      piece, empty or not, and emits no space at all.

    Only the text content of the output is modelled: one entry per piece of
    `text.split(" ")`; element structure, keys and styles are not. */
module Bionic {
  import opened JsString

  /** A value handed to `formatText`: a string, or any other JavaScript value
      (a number, a React element, undefined), identified only by a tag. */
  datatype Value = Str(s: string) | NonString(tag: int)

  /** One rendered piece: `null` for an empty piece, or a word cut in two.
      `trailingSpace` says whether a " " text node follows the remainder. */
  datatype Entry = Skipped | Segment(bold: string, rest: string, trailingSpace: bool)

  /** The result of `formatText`: the input handed back untouched, or the
      array produced by `split(" ").map(...)`. */
  datatype Formatted = Passthrough(value: Value) | Entries(entries: seq<Entry>)

  /** `Math.ceil(L * 0.4)` computed exactly: the least integer not below 2L/5. */
  function CeilTwoFifths(n: nat): (r: nat)
    ensures 0.4 * (n as real) <= r as real < 0.4 * (n as real) + 1.0
  {
    (2 * n + 4) / 5
  }

  /** The banded bold length of FRONTEND/src/hooks/useBionic.js. */
  function BandedBoldLength(len: nat): (b: nat)
    ensures 1 <= b
    ensures len >= 1 ==> b <= len
  {
    if len > 3 && len <= 6 then 2
    else if len > 6 && len <= 9 then 3
    else if len > 9 then CeilTwoFifths(len)
    else 1
  }

  /** The older bold length of FRONTEND/src/context/useBionic.js. For an empty
      piece it is 1, one more than the piece's length. */
  function LegacyBoldLength(len: nat): (b: nat)
    ensures 1 <= b
    ensures len >= 1 ==> b <= len
  {
    if len <= 3 then 1 else CeilTwoFifths(len)
  }

  function Min(a: int, b: int): int { if a <= b then a else b }

  /** `word.slice(0, b)`: slicing clamps an end beyond the string. */
  function Head(word: string, b: nat): (h: string)
    ensures |h| == Min(b, |word|)
    ensures h <= word
  {
    word[..Min(b, |word|)]
  }

  /** `word.slice(b)`. */
  function Tail(word: string, b: nat): (t: string)
    ensures Head(word, b) + t == word
  {
    word[Min(b, |word|)..]
  }

  /** What the banded formatter renders for one piece. */
  function BandedEntry(word: string): (e: Entry)
    ensures e.Skipped? <==> word == ""
    ensures e.Segment? ==>
              && e.bold + e.rest == word
              && |e.bold| == BandedBoldLength(|word|)
              && e.trailingSpace
  {
    if |word| == 0 then Skipped
    else
      var b := BandedBoldLength(|word|);
      Segment(Head(word, b), Tail(word, b), true)
  }

  /** What the older formatter renders for one piece. */
  function LegacyEntry(word: string): (e: Entry)
    ensures e.Segment? && e.bold + e.rest == word && !e.trailingSpace
    ensures |e.bold| == Min(LegacyBoldLength(|word|), |word|)
  {
    var b := LegacyBoldLength(|word|);
    Segment(Head(word, b), Tail(word, b), false)
  }

  /** `formatText` of FRONTEND/src/hooks/useBionic.js (and useBionic.jsx): the
      input untouched when the mode is off or the input is not a string;
      otherwise one entry per space-separated piece, in order, `null` exactly
      for the empty pieces, and every other piece cut at its banded bold
      length and followed by one space. */
  function FormatBanded(mode: bool, text: Value): (r: Formatted)
    ensures !mode || !text.Str? ==> r == Passthrough(text)
    ensures mode && text.Str? ==>
      var pieces := Split(text.s, ' ');
      && r.Entries?
      && |r.entries| == |pieces|
      && forall i :: 0 <= i < |pieces| ==>
           && (r.entries[i].Skipped? <==> pieces[i] == "")
           && (r.entries[i].Segment? ==>
                 && r.entries[i].bold + r.entries[i].rest == pieces[i]
                 && |r.entries[i].bold| == BandedBoldLength(|pieces[i]|)
                 && r.entries[i].trailingSpace)
  {
    if !mode || !text.Str? then Passthrough(text)
    else
      var pieces := Split(text.s, ' ');
      Entries(seq(|pieces|, i requires 0 <= i < |pieces| => BandedEntry(pieces[i])))
  }

  /** `formatText` of FRONTEND/src/context/useBionic.js and
      src/context/BionicContext.jsx: the input untouched when the mode is off or
      the input is not a string; otherwise one segment per piece, empty pieces
      included, cut at the older bold length (clamped to the piece) and with no
      space after it. */
  function FormatLegacy(mode: bool, text: Value): (r: Formatted)
    ensures !mode || !text.Str? ==> r == Passthrough(text)
    ensures mode && text.Str? ==>
      var pieces := Split(text.s, ' ');
      && r.Entries?
      && |r.entries| == |pieces|
      && forall i :: 0 <= i < |pieces| ==>
           && r.entries[i].Segment?
           && r.entries[i].bold + r.entries[i].rest == pieces[i]
           && |r.entries[i].bold| == Min(LegacyBoldLength(|pieces[i]|), |pieces[i]|)
           && !r.entries[i].trailingSpace
  {
    if !mode || !text.Str? then Passthrough(text)
    else
      var pieces := Split(text.s, ' ');
      Entries(seq(|pieces|, i requires 0 <= i < |pieces| => LegacyEntry(pieces[i])))
  }

  // ---------------------------------------------------------------------------
  // The bold-length rules

  /** The banded table at its boundaries and at the lengths 10, 11 and 20. */
  lemma BandedTable()
    ensures BandedBoldLength(1) == 1 && BandedBoldLength(2) == 1 && BandedBoldLength(3) == 1
    ensures BandedBoldLength(4) == 2 && BandedBoldLength(5) == 2 && BandedBoldLength(6) == 2
    ensures BandedBoldLength(7) == 3 && BandedBoldLength(8) == 3 && BandedBoldLength(9) == 3
    ensures BandedBoldLength(10) == 4 && BandedBoldLength(11) == 5 && BandedBoldLength(20) == 8
  {
  }

  /** A longer word never gets a shorter bold prefix under the banded rule. */
  lemma BandedMonotone(m: nat, n: nat)
    requires m <= n
    ensures BandedBoldLength(m) <= BandedBoldLength(n)
  {
  }

  /** The older rule agrees with the banded one for lengths up to 5, for 7 and
      from 10 on, and bolds one character more for lengths 6, 8 and 9. */
  lemma LegacyVersusBanded(len: nat)
    ensures len <= 5 || len == 7 || len >= 10 ==> LegacyBoldLength(len) == BandedBoldLength(len)
    ensures len == 6 || len == 8 || len == 9 ==> LegacyBoldLength(len) == BandedBoldLength(len) + 1
  {
  }

  // ---------------------------------------------------------------------------
  // What the entries say about the text

  /** The characters of an entry's word, without the rendered space. */
  function EntryWord(e: Entry): string
  {
    if e.Skipped? then "" else e.bold + e.rest
  }

  function EntryWords(entries: seq<Entry>): (words: seq<string>)
    ensures |words| == |entries|
    ensures forall i :: 0 <= i < |entries| ==> words[i] == EntryWord(entries[i])
  {
    seq(|entries|, i requires 0 <= i < |entries| => EntryWord(entries[i]))
  }

  /** The text one entry shows: nothing for `null`, otherwise the bold part,
      the remainder and the space node if there is one. */
  function EntryText(e: Entry): string
  {
    if e.Skipped? then "" else e.bold + e.rest + (if e.trailingSpace then " " else "")
  }

  /** The text the rendered entries show, one after the other. */
  function Rendered(entries: seq<Entry>): string
  {
    if |entries| == 0 then "" else EntryText(entries[0]) + Rendered(entries[1..])
  }

  /** Nothing of the text is lost: joining the entries' words with single
      spaces gives back the input of the banded formatter. */
  lemma BandedRecoversText(s: string)
    ensures var r := FormatBanded(true, Str(s));
            Join(EntryWords(r.entries), ' ') == s
  {
    var r := FormatBanded(true, Str(s));
    assert EntryWords(r.entries) == Split(s, ' ');
  }

  /** The same holds for the older formatter. */
  lemma LegacyRecoversText(s: string)
    ensures var r := FormatLegacy(true, Str(s));
            Join(EntryWords(r.entries), ' ') == s
  {
    var r := FormatLegacy(true, Str(s));
    assert EntryWords(r.entries) == Split(s, ' ');
  }

  /** Rendering the pieces of `s` with the older rule shows every character of
      every piece and no separator: the words run together. */
  lemma {:induction false} LegacyRenderedDropsSpaces(s: string)
    ensures Rendered(FormatLegacy(true, Str(s)).entries) == RemoveAll(s, ' ')
  {
    var pieces := Split(s, ' ');
    var entries := FormatLegacy(true, Str(s)).entries;
    forall i | 0 <= i < |pieces| ensures EntryText(entries[i]) == pieces[i] {
      assert entries[i].bold + entries[i].rest == pieces[i];
    }
    LegacyRenderedPieces(entries, pieces);
  }

  lemma {:induction false} LegacyRenderedPieces(entries: seq<Entry>, pieces: seq<string>)
    requires |entries| == |pieces|
    requires forall i :: 0 <= i < |pieces| ==> ' ' !in pieces[i]
    requires forall i :: 0 <= i < |pieces| ==> EntryText(entries[i]) == pieces[i]
    ensures Rendered(entries) == RemoveAll(Join(pieces, ' '), ' ')
  {
    if |pieces| > 0 {
      var p := pieces[0];
      assert Rendered(entries) == p + Rendered(entries[1..]);
      RemoveAbsent(p, ' ');
      LegacyRenderedPieces(entries[1..], pieces[1..]);
      if |pieces| == 1 {
        assert Rendered(entries[1..]) == "";
        assert Join(pieces, ' ') == p;
      } else {
        var rest := Join(pieces[1..], ' ');
        JoinUnfold(pieces);
        RemoveSeparator(p, rest);
      }
    }
  }

  lemma JoinUnfold(pieces: seq<string>)
    requires |pieces| > 1
    ensures Join(pieces, ' ') == pieces[0] + (" " + Join(pieces[1..], ' '))
  {
  }

  lemma RemoveSeparator(p: string, rest: string)
    ensures RemoveAll(p + (" " + rest), ' ') == RemoveAll(p, ' ') + RemoveAll(rest, ' ')
  {
    RemoveOnly(' ');
    RemoveAllAppend(" ", rest, ' ');
    assert RemoveAll(" " + rest, ' ') == "" + RemoveAll(rest, ' ') == RemoveAll(rest, ' ');
    RemoveAllAppend(p, " " + rest, ' ');
  }

  /** For text whose words are separated by single spaces, with no space at
      either end, the banded formatter shows the text unchanged followed by one
      extra space. */
  lemma {:induction false} BandedRenderedText(s: string)
    requires forall i :: 0 <= i < |Split(s, ' ')| ==> Split(s, ' ')[i] != ""
    ensures Rendered(FormatBanded(true, Str(s)).entries) == s + " "
  {
    var pieces := Split(s, ' ');
    BandedRenderedPieces(pieces);
  }

  lemma {:induction false} BandedRenderedPieces(pieces: seq<string>)
    requires |pieces| >= 1
    requires forall i :: 0 <= i < |pieces| ==> pieces[i] != ""
    ensures Rendered(seq(|pieces|, i requires 0 <= i < |pieces| => BandedEntry(pieces[i])))
            == Join(pieces, ' ') + " "
  {
    var entries := seq(|pieces|, i requires 0 <= i < |pieces| => BandedEntry(pieces[i]));
    var p := pieces[0];
    BandedEntriesTail(pieces);
    if |pieces| == 1 {
      assert entries[1..] == [];
    } else {
      BandedRenderedPieces(pieces[1..]);
      JoinUnfold(pieces);
    }
  }

  /** The first banded entry shows its word and a space; the rest are the
      banded entries of the remaining words. */
  lemma BandedEntriesTail(pieces: seq<string>)
    requires |pieces| >= 1 && pieces[0] != ""
    ensures var entries := seq(|pieces|, i requires 0 <= i < |pieces| => BandedEntry(pieces[i]));
            && entries[1..] == seq(|pieces| - 1, i requires 0 <= i < |pieces| - 1 => BandedEntry(pieces[1..][i]))
            && Rendered(entries) == pieces[0] + " " + Rendered(entries[1..])
  {
    var entries := seq(|pieces|, i requires 0 <= i < |pieces| => BandedEntry(pieces[i]));
    assert entries[0] == BandedEntry(pieces[0]);
    BandedEntryText(pieces[0]);
  }

  lemma BandedEntryText(word: string)
    requires word != ""
    ensures EntryText(BandedEntry(word)) == word + " "
  {
    var b := BandedBoldLength(|word|);
    assert Head(word, b) + Tail(word, b) == word;
  }

  // ---------------------------------------------------------------------------
  // The mode flag

  /** The shared Bionic mode flag: the `bionicModeAtom` of the hooks (its
      initial value is defined in a store module outside this model), or the
      `useState(false)` of `BionicProvider`. */
  class BionicMode {
    var isBionicMode: bool

    /** The jotai atom, starting from the store's initial value. */
    constructor Atom(initial: bool)
      ensures isBionicMode == initial
    {
      isBionicMode := initial;
    }

    /** `BionicProvider`: the mode starts off. */
    constructor Provider()
      ensures !isBionicMode
    {
      isBionicMode := false;
    }

    /** `toggleBionic`: negates the mode. */
    method ToggleBionic()
      modifies this
      ensures isBionicMode == !old(isBionicMode)
    {
      isBionicMode := !isBionicMode;
    }
  }

  /** Two toggles restore the mode, and the formatter follows the mode:
      after one toggle from the provider's initial state, text is formatted. */
  method ToggleTwiceRestores(text: string)
  {
    var m := new BionicMode.Provider();
    assert FormatBanded(m.isBionicMode, Str(text)) == Passthrough(Str(text));
    m.ToggleBionic();
    assert FormatLegacy(m.isBionicMode, Str(text)).Entries?;
    m.ToggleBionic();
    assert !m.isBionicMode;
  }
}
