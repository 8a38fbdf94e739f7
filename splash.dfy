/** The helpers of the fluid "splash cursor" effect
    (FRONTEND/src/splashCursor/utils.js): the Java-style string hash, the
    shader-program cache of `Material`, the colour conversion, `wrap` and
    `getResolution`. WebGL calls are replaced by what the cache can observe
    of them: a fresh program per compilation and a uniform table per program. */
module SplashCursor {
  import opened JsMath
  import opened Wrappers

  // ---------------------------------------------------------------------------
  // hashCode

  /** A UTF-16 code unit, as `charCodeAt` returns it. */
  type CodeUnit = x: int | 0 <= x < 0x1_0000

  const TwoTo31: int := 0x8000_0000
  const TwoTo32: int := 0x1_0000_0000

  /** `x | 0`: the signed 32-bit integer congruent to `x` modulo 2^32. */
  function ToInt32(x: int): (r: int)
    ensures -TwoTo31 <= r < TwoTo31
    ensures (x - r) % TwoTo32 == 0
  {
    var m := x % TwoTo32;
    if m >= TwoTo31 then m - TwoTo32 else m
  }

  lemma ToInt32Congruent(a: int, b: int)
    requires (a - b) % TwoTo32 == 0
    ensures ToInt32(a) == ToInt32(b)
  {
    assert a % TwoTo32 == b % TwoTo32;
  }

  /** The hash the loop computes, stated one character at a time:
      h("") = 0 and h(s + [c]) = toInt32(31 h(s) + c). */
  function HashOf(s: seq<CodeUnit>): (h: int)
    ensures -TwoTo31 <= h < TwoTo31
  {
    if |s| == 0 then 0 else ToInt32(31 * HashOf(s[..|s| - 1]) + s[|s| - 1])
  }

  /** `hashCode`: `hash = (hash << 5) - hash + c; hash |= 0` over the code
      units, where `<<` itself wraps to 32 bits. */
  method HashCode(s: seq<CodeUnit>) returns (hash: int)
    ensures hash == HashOf(s)
    ensures -TwoTo31 <= hash < TwoTo31
  {
    if |s| == 0 {
      return 0;
    }
    hash := 0;
    var i := 0;
    while i < |s|
      invariant 0 <= i <= |s|
      invariant hash == HashOf(s[..i])
    {
      var shifted := ToInt32(hash * 32);
      var next := shifted - hash + s[i];
      ShiftStep(hash, s[i]);
      assert s[..i + 1][..i] == s[..i];
      hash := ToInt32(next);
      i := i + 1;
    }
    assert s[..i] == s;
  }

  /** `(hash << 5) - hash + c`, with the shift wrapped, wraps to the same
      value as `31 hash + c`. */
  lemma ShiftStep(hash: int, c: int)
    ensures ToInt32(ToInt32(hash * 32) - hash + c) == ToInt32(31 * hash + c)
  {
    var shifted := ToInt32(hash * 32);
    var k := (hash * 32 - shifted) / TwoTo32;
    assert hash * 32 - shifted == k * TwoTo32;
    assert (shifted - hash + c) - (31 * hash + c) == (-k) * TwoTo32;
    MultipleRem(-k);
    ToInt32Congruent(shifted - hash + c, 31 * hash + c);
  }

  /** The hash of a single character is its code. */
  lemma HashOfOneUnit(c: CodeUnit)
    ensures HashOf([c]) == c
  {
    assert [c][..0] == [];
  }

  /** Java's `String.hashCode` over unbounded integers:
      s[0] 31^(n-1) + ... + s[n-1]. */
  function Polynomial(s: seq<CodeUnit>): int
  {
    if |s| == 0 then 0 else 31 * Polynomial(s[..|s| - 1]) + s[|s| - 1]
  }
  /** The wrapping loop computes the polynomial hash reduced to a signed
      32-bit integer, as Java's `String.hashCode` does. */
  lemma {:induction false} HashOfPolynomial(s: seq<CodeUnit>)
    ensures HashOf(s) == ToInt32(Polynomial(s))
  {
    if |s| > 0 {
      var p := s[..|s| - 1];
      var c := s[|s| - 1];
      HashOfPolynomial(p);
      StepCongruent(Polynomial(p), HashOf(p), c);
      ToInt32Congruent(31 * Polynomial(p) + c, 31 * HashOf(p) + c);
    }
  }

  /** One step of the hash keeps two values congruent modulo 2^32 when
      one is the other wrapped. */
  lemma StepCongruent(a: int, b: int, c: int)
    requires ToInt32(a) == b
    ensures ((31 * a + c) - (31 * b + c)) % TwoTo32 == 0
  {
    var k := (a - b) / TwoTo32;
    assert a - b == k * TwoTo32;
    assert (31 * a + c) - (31 * b + c) == (31 * k) * TwoTo32;
    MultipleRem(31 * k);
  }

  lemma MultipleRem(k: int)
    ensures (k * TwoTo32) % TwoTo32 == 0
  {
  }

  // ---------------------------------------------------------------------------
  // Material.setKeywords

  /** A keyword hash function of the kind a material is given. */
  type KeywordHash = seq<CodeUnit> -> int

  /** Every keyword's hash is a signed 32-bit integer, as with `hashCode`. */
  predicate HashesInRange(hashCode: KeywordHash, keywords: seq<seq<CodeUnit>>)
  {
    forall i :: 0 <= i < |keywords| ==> -TwoTo31 <= hashCode(keywords[i]) < TwoTo31
  }

  /** The cache key of a keyword list under the material's `hashCode`: the
      plain sum of the keyword hashes, not wrapped to 32 bits. */
  function KeywordsKey(hashCode: KeywordHash, keywords: seq<seq<CodeUnit>>): (k: int)
    ensures HashesInRange(hashCode, keywords) ==>
              -TwoTo31 * |keywords| <= k <= (TwoTo31 - 1) * |keywords|
  {
    if |keywords| == 0 then 0
    else
      var n := |keywords| - 1;
      assert forall i :: 0 <= i < n ==> keywords[..n][i] == keywords[i];
      KeywordsKey(hashCode, keywords[..n]) + hashCode(keywords[n])
  }

  /** With the module's own `hashCode`, every keyword hash is in range. */
  lemma ModuleHashInRange(keywords: seq<seq<CodeUnit>>)
    ensures HashesInRange(HashOf, keywords)
    ensures -TwoTo31 * |keywords| <= KeywordsKey(HashOf, keywords) <= (TwoTo31 - 1) * |keywords|
  {
  }

  lemma {:induction false} KeywordsKeyAppend(hashCode: KeywordHash, a: seq<seq<CodeUnit>>, b: seq<seq<CodeUnit>>)
    ensures KeywordsKey(hashCode, a + b) == KeywordsKey(hashCode, a) + KeywordsKey(hashCode, b)
  {
    if |b| == 0 {
      assert a + b == a;
    } else {
      KeywordsKeyAppend(hashCode, a, b[..|b| - 1]);
      assert (a + b)[..|a + b| - 1] == a + b[..|b| - 1];
    }
  }

  /** The key forgets the order of the keywords: any rearrangement of the
      same keywords selects the same cached program. */
  lemma {:induction false} KeywordsKeyPermutation(hashCode: KeywordHash, a: seq<seq<CodeUnit>>, b: seq<seq<CodeUnit>>)
    requires multiset(a) == multiset(b)
    ensures KeywordsKey(hashCode, a) == KeywordsKey(hashCode, b)
    decreases |a|
  {
    if |a| > 0 {
      var last := a[|a| - 1];
      assert a == a[..|a| - 1] + [last];
      assert last in multiset(b);
      var j :| 0 <= j < |b| && b[j] == last;
      var rest := b[..j] + b[j + 1..];
      assert b == b[..j] + [last] + b[j + 1..];
      assert multiset(a) == multiset(a[..|a| - 1]) + multiset{last};
      assert multiset(b) == multiset(b[..j]) + multiset{last} + multiset(b[j + 1..]);
      assert multiset(rest) == multiset(b[..j]) + multiset(b[j + 1..]);
      assert multiset(a[..|a| - 1]) == multiset(a) - multiset{last};
      assert multiset(rest) == multiset(b) - multiset{last};
      KeywordsKeyPermutation(hashCode, a[..|a| - 1], rest);
      KeywordsKeyAppend(hashCode, b[..j] + [last], b[j + 1..]);
      KeywordsKeyAppend(hashCode, b[..j], [last]);
      KeywordsKeyAppend(hashCode, b[..j], b[j + 1..]);
      var none: seq<seq<CodeUnit>> := [];
      assert [last][..0] == none;
    } else {
      assert |multiset(b)| == 0;
    }
  }

  /** Because the key is a sum, different keyword lists can share it:
      ["a", "b"] and ["Ã"] both have key 195. */
  lemma KeywordsKeyCollision()
    ensures KeywordsKey(HashOf, [[97], [98]]) == KeywordsKey(HashOf, [[0xC3]]) == 195
  {
    HashOfOneUnit(97);
    HashOfOneUnit(98);
    HashOfOneUnit(0xC3);
    assert [[97], [98]][..1] == [[97]];
    assert [[97], [98]][..0] == [];
  }

  /** The loop of `setKeywords` that sums the keyword hashes. */
  method KeywordsHash(hashCode: KeywordHash, keywords: seq<seq<CodeUnit>>) returns (hash: int)
    ensures hash == KeywordsKey(hashCode, keywords)
  {
    hash := 0;
    var i := 0;
    while i < |keywords|
      invariant 0 <= i <= |keywords|
      invariant hash == KeywordsKey(hashCode, keywords[..i])
    {
      var h := hashCode(keywords[i]);
      assert keywords[..i + 1][..i] == keywords[..i];
      hash := hash + h;
      i := i + 1;
    }
    assert keywords[..i] == keywords;
  }

  /** A compiled program, named by the order in which it was created. */
  type ProgramId = nat

  /** The uniform locations `getUniforms` reads off a linked program. */
  type UniformTable = map<string, nat>

  /** A material: one fragment shader source compiled once per keyword
      combination, with the program in use and its uniforms. */
  class Material {
    /** The `getUniforms` callback handed to the constructor. */
    const getUniforms: ProgramId -> UniformTable
    /** The `hashCode` callback handed to the constructor, which keys the
        cache. */
    const hashCode: KeywordHash
    /** `programs`: the cache, from key to program. Entries are never removed. */
    var programs: map<int, ProgramId>
    var activeProgram: Option<ProgramId>
    var uniforms: UniformTable
    /** How many programs `compileShader` and `createProgram` have built; the
        next program gets this number. */
    var compiled: nat
    /** How many times `getUniforms` has been called. */
    var uniformLookups: nat

    /** Every cached program, and the active one, was built by this
        material; no program is cached under two keys. */
    ghost predicate Valid()
      reads this
    {
      && (forall k :: k in programs ==> programs[k] < compiled)
      && (forall k, k' :: k in programs && k' in programs && k != k' ==> programs[k] != programs[k'])
      && (activeProgram.Some? ==> activeProgram.value < compiled)
    }

    constructor (getUniforms: ProgramId -> UniformTable, hashCode: KeywordHash)
      ensures Valid()
      ensures this.getUniforms == getUniforms && this.hashCode == hashCode
      ensures programs == map[] && activeProgram == None && uniforms == map[]
      ensures compiled == 0 && uniformLookups == 0
    {
      this.getUniforms := getUniforms;
      this.hashCode := hashCode;
      programs := map[];
      activeProgram := None;
      uniforms := map[];
      compiled := 0;
      uniformLookups := 0;
    }

    /** `setKeywords`: select (compiling on a miss) the program for the
        keywords and make it active, reading its uniforms unless it already
        was active. */
    method SetKeywords(keywords: seq<seq<CodeUnit>>)
      requires Valid()
      modifies this
      ensures Valid()
      ensures var key := KeywordsKey(hashCode, keywords);
        && (key in old(programs) ==>
              programs == old(programs) && compiled == old(compiled))
        && (key !in old(programs) ==>
              programs == old(programs)[key := old(compiled)] && compiled == old(compiled) + 1)
        && activeProgram == Some(programs[key])
        && (old(activeProgram) == activeProgram ==>
              uniforms == old(uniforms) && uniformLookups == old(uniformLookups))
        && (old(activeProgram) != activeProgram ==>
              uniforms == getUniforms(programs[key]) && uniformLookups == old(uniformLookups) + 1)
    {
      var hash := KeywordsHash(hashCode, keywords);
      var program: ProgramId;
      if hash in programs {
        program := programs[hash];
      } else {
        program := compiled;
        programs := programs[hash := program];
        compiled := compiled + 1;
      }
      if activeProgram == Some(program) {
        return;
      }
      uniforms := getUniforms(program);
      uniformLookups := uniformLookups + 1;
      activeProgram := Some(program);
    }
  }

  /** Setting the same keywords in another order reuses the cached program and
      neither compiles nor reads uniforms again. */
  method ReorderedKeywordsShareProgram(a: seq<CodeUnit>, b: seq<CodeUnit>, getUniforms: ProgramId -> UniformTable,
                                       hashCode: KeywordHash)
  {
    var m := new Material(getUniforms, hashCode);
    m.SetKeywords([a, b]);
    var first := m.activeProgram;
    assert m.compiled == 1 && m.uniformLookups == 1;
    KeywordsKeyPermutation(hashCode, [a, b], [b, a]);
    m.SetKeywords([b, a]);
    assert m.activeProgram == first && m.compiled == 1 && m.uniformLookups == 1;
  }

  // ---------------------------------------------------------------------------
  // wrap

  /** `wrap(value, min, max)`: `min` for an empty range, otherwise
      `((value - min) % range) + min` with JavaScript's truncating `%`, whose
      result takes the sign of `value - min` whatever the sign of `range`. */
  function Wrap(value: real, min: real, max: real): (r: real)
    ensures max == min ==> r == min
    ensures min <= value < max ==> r == value
    ensures max != min && min <= value ==> min <= r < min + Abs(max - min)
    ensures max != min && value < min ==> min - Abs(max - min) < r <= min
    ensures max != min ==> IsWhole((value - r) / Abs(max - min))
  {
    var range := max - min;
    if range == 0.0 then min
    else
      assert min <= value < max ==> Trunc((value - min) / range) == 0 by {
        if min <= value < max {
          DivBelowOne(value - min, range);
        }
      }
      TruncRem(value - min, Abs(range)) + min
  }

  function Abs(x: real): (a: real)
    ensures a >= 0.0 && (a == x || a == -x)
  {
    if x < 0.0 then -x else x
  }

  /** Above `min`, moving the value by one whole range does not move the
      result. */
  lemma WrapPeriodic(value: real, min: real, max: real)
    requires min < max && min <= value
    ensures Wrap(value + (max - min), min, max) == Wrap(value, min, max)
  {
    var range := max - min;
    assert Abs(range) == range;
    assert value + range - min == (value - min) + range;
    RemShift(value - min, range);
  }

  lemma RemShift(x: real, range: real)
    requires 0.0 <= x && 0.0 < range
    ensures TruncRem(x + range, range) == TruncRem(x, range)
  {
    DivShift(x, range);
    DivNonNegative(x, range);
    TruncShift(x / range);
    var q := Trunc(x / range) as real;
    assert TruncRem(x + range, range) == (x + range) - (q + 1.0) * range;
    assert (q + 1.0) * range == q * range + range;
  }

  lemma DivShift(x: real, range: real)
    requires 0.0 < range
    ensures (x + range) / range == x / range + 1.0
  {
    assert range / range == 1.0;
    assert (x + range) / range == x / range + range / range;
  }

  lemma TruncShift(y: real)
    requires 0.0 <= y
    ensures Trunc(y + 1.0) == Trunc(y) + 1
  {
  }

  lemma DivNonNegative(a: real, b: real)
    requires 0.0 <= a && 0.0 < b
    ensures 0.0 <= a / b
  {
    assert (a / b) * b == a;
  }

  lemma DivBelowOne(a: real, b: real)
    requires 0.0 <= a < b
    ensures 0.0 <= a / b < 1.0
  {
    assert (a / b) * b == a;
  }

  /** A value below the range is not brought into it: one range below `min`
      lands on `min` only when it is a whole number of ranges below. */
  lemma WrapBelowRange()
    ensures Wrap(-1.0, 0.0, 10.0) == -1.0
    ensures Wrap(-10.0, 0.0, 10.0) == 0.0
    ensures Wrap(12.0, 0.0, 10.0) == 2.0
  {
    assert Trunc(-1.0 / 10.0) == 0;
    assert Trunc(-10.0 / 10.0) == -1;
    assert Trunc(12.0 / 10.0) == 1;
  }

  // ---------------------------------------------------------------------------
  // HSVtoRGB

  /** The object `HSVtoRGB` returns: three components, or three `undefined`s
      when no `case` of the switch matches. */
  datatype Color = Rgb(r: real, g: real, b: real) | Undefined

  /** `HSVtoRGB(h, s, v)`: sector `floor(6h) % 6` (a truncating `%`, so a
      negative sector matches no case unless it is a multiple of 6) picks
      which of v, p, q, t each component is. */
  function HsvToRgb(h: real, s: real, v: real): (c: Color)
    ensures s == 0.0 && c.Rgb? ==> c.r == v && c.g == v && c.b == v
    ensures 0.0 <= h ==> c.Rgb?
  {
    var i := (h * 6.0).Floor;
    var f := h * 6.0 - i as real;
    var p := v * (1.0 - s);
    var q := v * (1.0 - f * s);
    var t := v * (1.0 - (1.0 - f) * s);
    SectorColor(TruncRemSix(i), v, p, q, t)
  }

  /** `i % 6` with JavaScript's truncating `%`: the sign of `i`. */
  function TruncRemSix(i: int): (r: int)
    ensures i >= 0 ==> 0 <= r < 6
    ensures i < 0 ==> -6 < r <= 0
    ensures (i - r) % 6 == 0
  {
    if i >= 0 then i % 6 else -((-i) % 6)
  }

  /** The `switch` of `HSVtoRGB`: which of v, p, q, t each component takes in
      each sector, and no colour outside the six cases. */
  function SectorColor(sector: int, v: real, p: real, q: real, t: real): (c: Color)
    ensures c.Rgb? <==> 0 <= sector < 6
  {
    if sector == 0 then Rgb(v, t, p)
    else if sector == 1 then Rgb(q, v, p)
    else if sector == 2 then Rgb(p, v, t)
    else if sector == 3 then Rgb(p, q, v)
    else if sector == 4 then Rgb(t, p, v)
    else if sector == 5 then Rgb(v, p, q)
    else Undefined
  }

  /** In every sector one component is `v` and one is `p`. */
  lemma SectorExtremes(sector: int, v: real, p: real, q: real, t: real)
    requires 0 <= sector < 6
    requires p <= q <= v && p <= t <= v
    ensures var c := SectorColor(sector, v, p, q, t);
            Max3(c.r, c.g, c.b) == v && Min3(c.r, c.g, c.b) == p
  {
  }

  function Max3(a: real, b: real, c: real): real { Max(a, Max(b, c)) }
  function Min3(a: real, b: real, c: real): real { Min(a, Min(b, c)) }

  lemma ScaledBetween(v: real, s: real, f: real)
    requires v >= 0.0 && 0.0 <= s <= 1.0 && 0.0 <= f <= 1.0
    ensures v * (1.0 - s) <= v * (1.0 - f * s) <= v
  {
    assert f * s <= s;
    assert 0.0 <= f * s;
  }

  /** The conversion inverts the usual HSV reading of a colour: for a
      non-negative hue, a saturation in [0, 1] and a non-negative value, the
      largest component is `v` and the smallest is `v (1 - s)`. */
  lemma HsvExtremes(h: real, s: real, v: real)
    requires 0.0 <= h && 0.0 <= s <= 1.0 && 0.0 <= v
    ensures var c := HsvToRgb(h, s, v);
            c.Rgb? && Max3(c.r, c.g, c.b) == v && Min3(c.r, c.g, c.b) == v * (1.0 - s)
  {
    var i := (h * 6.0).Floor;
    var f := h * 6.0 - i as real;
    assert 0 <= i && 0.0 <= f < 1.0;
    var sector := TruncRemSix(i);
    FractionExtremes(sector, f, s, v);
    assert HsvToRgb(h, s, v)
           == SectorColor(sector, v, v * (1.0 - s), v * (1.0 - f * s), v * (1.0 - (1.0 - f) * s));
  }

  lemma FractionExtremes(sector: int, f: real, s: real, v: real)
    requires 0 <= sector < 6 && 0.0 <= f < 1.0 && 0.0 <= s <= 1.0 && 0.0 <= v
    ensures var c := SectorColor(sector, v, v * (1.0 - s), v * (1.0 - f * s), v * (1.0 - (1.0 - f) * s));
            Max3(c.r, c.g, c.b) == v && Min3(c.r, c.g, c.b) == v * (1.0 - s)
  {
    ScaledBetween(v, s, f);
    ScaledBetween(v, s, 1.0 - f);
    SectorExtremes(sector, v, v * (1.0 - s), v * (1.0 - f * s), v * (1.0 - (1.0 - f) * s));
  }

  /** Hues one apart give the same colour. */
  lemma HsvPeriodic(h: real, s: real, v: real)
    requires 0.0 <= h
    ensures HsvToRgb(h + 1.0, s, v) == HsvToRgb(h, s, v)
  {
    var i := (h * 6.0).Floor;
    assert (h + 1.0) * 6.0 == h * 6.0 + 6.0;
    assert ((h + 1.0) * 6.0).Floor == i + 6;
    assert 0 <= i;
    assert TruncRemSix(i + 6) == TruncRemSix(i);
    assert (h + 1.0) * 6.0 - (i + 6) as real == h * 6.0 - i as real;
  }

  /** Just below zero the sector is -1, which no case matches. */
  lemma HsvNegativeHueUndefined()
    ensures HsvToRgb(-0.1, 0.5, 1.0) == Undefined
  {
    assert (-0.1 * 6.0).Floor == -1;
  }

  // ---------------------------------------------------------------------------
  // getResolution

  /** A framebuffer size. */
  datatype Resolution = Resolution(width: int, height: int)

  /** `getResolution`: the short side is `round(resolution)`, the long side
      `round(resolution * aspect)` with the aspect ratio taken at least 1, and
      the long side goes along the drawing buffer's longer dimension. */
  function GetResolution(bufferWidth: nat, bufferHeight: nat, resolution: real): (r: Resolution)
    requires bufferWidth > 0 && bufferHeight > 0
    ensures bufferWidth > bufferHeight ==>
              r.height == Round(resolution)
              && r.width == Round(resolution * (bufferWidth as real / bufferHeight as real))
    ensures bufferWidth <= bufferHeight ==>
              r.width == Round(resolution)
              && r.height == Round(resolution * (bufferHeight as real / bufferWidth as real))
    ensures resolution >= 0.0 ==>
              (bufferWidth > bufferHeight ==> r.width >= r.height)
              && (bufferWidth <= bufferHeight ==> r.height >= r.width)
  {
    var w := bufferWidth as real;
    var hgt := bufferHeight as real;
    var aspect := w / hgt;
    var aspect' := if aspect < 1.0 then 1.0 / aspect else aspect;
    AspectAtLeastOne(w, hgt);
    var min := Round(resolution);
    var max := Round(resolution * aspect');
    LongSideNotShorter(resolution, aspect');
    if bufferWidth > bufferHeight then Resolution(max, min) else Resolution(min, max)
  }

  lemma LongSideNotShorter(resolution: real, aspect: real)
    requires aspect >= 1.0
    ensures resolution >= 0.0 ==> Round(resolution) <= Round(resolution * aspect)
  {
    if resolution >= 0.0 {
      assert resolution <= resolution * aspect;
      RoundMonotone(resolution, resolution * aspect);
    }
  }

  lemma AspectAtLeastOne(w: real, h: real)
    requires w > 0.0 && h > 0.0
    ensures w > h ==> w / h >= 1.0
    ensures w < h ==> w / h < 1.0 && 1.0 / (w / h) == h / w && h / w > 1.0
    ensures w == h ==> w / h == 1.0 && h / w == 1.0
    ensures w / h >= 1.0 ==> w >= h
  {
    assert (w / h) * h == w;
    assert (h / w) * w == h;
    if w < h {
      assert (1.0 / (w / h)) * (w / h) == 1.0;
    }
  }

  /** A square buffer gives a square framebuffer of side `round(resolution)`. */
  lemma SquareResolution(side: nat, resolution: real)
    requires side > 0
    ensures GetResolution(side, side, resolution) == Resolution(Round(resolution), Round(resolution))
  {
    AspectAtLeastOne(side as real, side as real);
  }
}
