/** The client's three string sanitisers: `RemoveInvalidXMLChars`, which strips
    the UTF-16 code units XML cannot carry, and the `XMLQuotes` and `Dequote`
    escapers. */
module XmlChars {
  import opened Wrappers
  import opened Text

  predicate IsHigh(u: u16) {
    0xD800 <= u <= 0xDBFF
  }

  predicate IsLow(u: u16) {
    0xDC00 <= u <= 0xDFFF
  }

  /** The control and non-character units the sanitiser drops wherever they are. */
  predicate IsForbidden(u: u16) {
    u <= 0x08 || u == 0x0B || u == 0x0C || (0x0E <= u <= 0x1F) || (0x7F <= u <= 0x9F)
    || u == 0xFEFF || u == 0xFFFE || u == 0xFFFF
  }

  /** The sanitiser's pattern matches the unit at `i`: a low surrogate not
      preceded by a high one, a high surrogate not followed by a low one, or a
      forbidden unit. Look-behind and look-ahead inspect the input, not the
      output being built. */
  predicate Dropped(s: Str, i: nat)
    requires i < |s|
  {
    (IsLow(s[i]) && (i == 0 || !IsHigh(s[i - 1])))
    || (IsHigh(s[i]) && (i + 1 == |s| || !IsLow(s[i + 1])))
    || IsForbidden(s[i])
  }

  /** A string XML can carry: no forbidden unit and every surrogate paired. */
  predicate WellFormed(t: Str) {
    forall j | 0 <= j < |t| ::
      !IsForbidden(t[j])
      && (IsLow(t[j]) ==> j > 0 && IsHigh(t[j - 1]))
      && (IsHigh(t[j]) ==> j + 1 < |t| && IsLow(t[j + 1]))
  }

  /** The first `n` units of `s` with every matched unit removed. Every match
      is one unit long, so the regular-expression replacement is this filter. */
  function ScrubUpTo(s: Str, n: nat): (r: Str)
    requires n <= |s|
    ensures |r| <= n
    decreases n
  {
    if n == 0 then []
    else ScrubUpTo(s, n - 1) + (if Dropped(s, n - 1) then [] else [s[n - 1]])
  }

  function Scrub(s: Str): Str {
    ScrubUpTo(s, |s|)
  }

  /** `RemoveInvalidXMLChars(text)`; `None` is a null string. */
  function RemoveInvalidXMLChars(text: Option<Str>): (r: Str)
    ensures text.None? ==> r == []
    ensures text.Some? ==> r == Scrub(text.value)
  {
    match text
    case None => []
    case Some(t) => if t == [] then [] else Scrub(t)
  }

  /** What holds of a scrubbed prefix: every unit in it is allowed, every low
      surrogate follows a high one, and a high surrogate is followed by a low
      one, except possibly a final one, which then awaits the low `s[n]`. */
  predicate PrefixShape(s: Str, n: nat, t: Str)
    requires n <= |s|
  {
    (forall j | 0 <= j < |t| ::
       !IsForbidden(t[j])
       && (IsLow(t[j]) ==> j > 0 && IsHigh(t[j - 1]))
       && (IsHigh(t[j]) && j + 1 < |t| ==> IsLow(t[j + 1])))
    && (|t| > 0 && IsHigh(t[|t| - 1]) ==> 0 < n < |s| && IsHigh(s[n - 1]) && IsLow(s[n]))
  }

  lemma {:induction false} ScrubPrefixShape(s: Str, n: nat)
    requires n <= |s|
    ensures PrefixShape(s, n, ScrubUpTo(s, n))
    decreases n
  {
    if n == 0 {
      assert ScrubUpTo(s, 0) == [];
    } else {
      ScrubPrefixShape(s, n - 1);
      ShapeStep(s, n);
    }
  }

  /** One unit more keeps the shape, whether the unit is dropped or kept. */
  lemma ShapeStep(s: Str, n: nat)
    requires 0 < n <= |s|
    requires PrefixShape(s, n - 1, ScrubUpTo(s, n - 1))
    ensures PrefixShape(s, n, ScrubUpTo(s, n))
  {
    if Dropped(s, n - 1) {
      DropKeepsShape(s, n);
    } else {
      KeepKeepsShape(s, n);
    }
  }

  /** A dropped unit leaves the shape as it was; the prefix cannot have ended
      in a high surrogate, whose low partner would have been kept. */
  lemma DropKeepsShape(s: Str, n: nat)
    requires 0 < n <= |s| && Dropped(s, n - 1)
    requires PrefixShape(s, n - 1, ScrubUpTo(s, n - 1))
    ensures PrefixShape(s, n, ScrubUpTo(s, n))
  {
    assert ScrubUpTo(s, n) == ScrubUpTo(s, n - 1);
  }

  /** A kept unit extends the shape: a low one follows the high one kept just
      before it, and a high one awaits the low one after it. */
  lemma KeepKeepsShape(s: Str, n: nat)
    requires 0 < n <= |s| && !Dropped(s, n - 1)
    requires PrefixShape(s, n - 1, ScrubUpTo(s, n - 1))
    ensures PrefixShape(s, n, ScrubUpTo(s, n))
  {
    var t := ScrubUpTo(s, n - 1);
    var u := s[n - 1];
    var r := ScrubUpTo(s, n);
    assert PrefixShape(s, n - 1, t);
    assert r == t + [u];
    forall j | 0 <= j < |r|
      ensures !IsForbidden(r[j])
      ensures IsLow(r[j]) ==> j > 0 && IsHigh(r[j - 1])
      ensures IsHigh(r[j]) && j + 1 < |r| ==> IsLow(r[j + 1])
    {
      if j < |t| {
        assert r[j] == t[j];
        if j > 0 {
          assert r[j - 1] == t[j - 1];
        }
        if j + 1 < |t| {
          assert r[j + 1] == t[j + 1];
          assert IsHigh(t[j]) ==> IsLow(t[j + 1]);
        } else {
          assert r[j + 1] == u;
        }
      } else {
        assert r[j] == u;
        if IsLow(u) {
          assert n >= 2 && IsHigh(s[n - 2]);
          assert !Dropped(s, n - 2);
          assert t == ScrubUpTo(s, n - 2) + [s[n - 2]];
          assert r[j - 1] == s[n - 2];
        }
      }
    }
    assert r[|r| - 1] == u;
    if IsHigh(u) {
      assert n < |s| && IsLow(s[n]);
    }
  }

  /** The sanitiser's output is well-formed. */
  lemma ScrubWellFormed(s: Str)
    ensures WellFormed(Scrub(s))
  {
    ScrubPrefixShape(s, |s|);
    var t := Scrub(s);
    if |t| > 0 {
      // A final high surrogate would await a unit beyond the input.
      assert !IsHigh(t[|t| - 1]);
    }
  }

  /** On a well-formed prefix nothing is dropped. */
  lemma {:induction false} ScrubUpToClean(s: Str, n: nat)
    requires n <= |s| && WellFormed(s)
    ensures ScrubUpTo(s, n) == s[..n]
    decreases n
  {
    if n > 0 {
      ScrubUpToClean(s, n - 1);
      var j := n - 1;
      assert !IsForbidden(s[j]) && (IsLow(s[j]) ==> j > 0 && IsHigh(s[j - 1])) && (IsHigh(s[j]) ==> j + 1 < |s| && IsLow(s[j + 1]));
      assert !Dropped(s, n - 1);
      assert s[..n] == s[..n - 1] + [s[n - 1]];
    }
  }

  /** The sanitiser changes a string exactly when the string is not well-formed. */
  lemma ScrubFixpoint(s: Str)
    ensures Scrub(s) == s <==> WellFormed(s)
  {
    if WellFormed(s) {
      ScrubUpToClean(s, |s|);
      assert s[..|s|] == s;
    } else {
      ScrubWellFormed(s);
    }
  }

  /** Sanitising twice is sanitising once. */
  lemma ScrubIdempotent(s: Str)
    ensures Scrub(Scrub(s)) == Scrub(s)
  {
    ScrubWellFormed(s);
    ScrubFixpoint(Scrub(s));
  }

  /** A surrogate pair of the input survives: the high unit is kept, and so
      is the low one after it. */
  lemma PairSurvives(s: Str, i: nat)
    requires i + 1 < |s| && IsHigh(s[i]) && IsLow(s[i + 1])
    ensures ScrubUpTo(s, i + 2) == ScrubUpTo(s, i) + [s[i], s[i + 1]]
  {
    assert !Dropped(s, i) && !Dropped(s, i + 1);
  }

  const Amp: u16 := 0x26
  const Quot: u16 := 0x22
  const Less: u16 := 0x3C
  const Greater: u16 := 0x3E
  const Lf: u16 := 0x0A
  const Cr: u16 := 0x0D
  const Space: u16 := 0x20
  const Apos: u16 := 0x27

  /** `&amp;` */
  const AmpEntity: Str := [0x26, 0x61, 0x6D, 0x70, 0x3B]
  /** `&quot;` */
  const QuotEntity: Str := [0x26, 0x71, 0x75, 0x6F, 0x74, 0x3B]
  /** `&lt;` */
  const LtEntity: Str := [0x26, 0x6C, 0x74, 0x3B]
  /** `&gt;` */
  const GtEntity: Str := [0x26, 0x67, 0x74, 0x3B]

  /** `XMLQuotes(name)`: six ordinal replacements in a row, `&` first. */
  function XMLQuotes(name: Option<Str>): (r: Option<Str>)
    ensures r.None? <==> name.None?
  {
    match name
    case None => None
    case Some(s) =>
      var s1 := ReplaceAll(s, [Amp], AmpEntity);
      var s2 := ReplaceAll(s1, [Quot], QuotEntity);
      var s3 := ReplaceAll(s2, [Less], LtEntity);
      var s4 := ReplaceAll(s3, [Greater], GtEntity);
      var s5 := ReplaceAll(s4, [Lf], [Space]);
      Some(ReplaceAll(s5, [Cr], [Space]))
  }

  /** The escape of one unit. */
  function EscapeUnit(u: u16): (r: Str)
    ensures |r| >= 1
    ensures Less !in r && Greater !in r && Quot !in r && Lf !in r && Cr !in r
  {
    if u == Amp then AmpEntity
    else if u == Quot then QuotEntity
    else if u == Less then LtEntity
    else if u == Greater then GtEntity
    else if u == Lf || u == Cr then [Space]
    else [u]
  }

  /** The unit-by-unit reference escaper. */
  function Escape(s: Str): (r: Str)
    ensures |r| >= |s|
    ensures Less !in r && Greater !in r && Quot !in r && Lf !in r && Cr !in r
    decreases |s|
  {
    if s == [] then [] else EscapeUnit(s[0]) + Escape(s[1..])
  }

  /** The replacement chain as substitutions. */
  function Chain(s: Str): Str {
    Subst(Subst(Subst(Subst(Subst(Subst(s, Amp, AmpEntity), Quot, QuotEntity), Less, LtEntity), Greater, GtEntity), Lf, [Space]), Cr, [Space])
  }

  lemma ChainConcat(a: Str, b: Str)
    ensures Chain(a + b) == Chain(a) + Chain(b)
  {
    SubstConcat(a, b, Amp, AmpEntity);
    var a1, b1 := Subst(a, Amp, AmpEntity), Subst(b, Amp, AmpEntity);
    SubstConcat(a1, b1, Quot, QuotEntity);
    var a2, b2 := Subst(a1, Quot, QuotEntity), Subst(b1, Quot, QuotEntity);
    SubstConcat(a2, b2, Less, LtEntity);
    var a3, b3 := Subst(a2, Less, LtEntity), Subst(b2, Less, LtEntity);
    SubstConcat(a3, b3, Greater, GtEntity);
    var a4, b4 := Subst(a3, Greater, GtEntity), Subst(b3, Greater, GtEntity);
    SubstConcat(a4, b4, Lf, [Space]);
    var a5, b5 := Subst(a4, Lf, [Space]), Subst(b4, Lf, [Space]);
    SubstConcat(a5, b5, Cr, [Space]);
  }

  lemma SubstSingle(u: u16, c: u16, rep: Str)
    ensures Subst([u], c, rep) == if u == c then rep else [u]
  {
    assert [u][1..] == [];
  }

  /** The chain's last five stages leave an entity that holds none of their units alone. */
  lemma ChainTail(e: Str, from: nat)
    requires 1 <= from <= 5
    requires from <= 1 ==> Quot !in e
    requires from <= 2 ==> Less !in e
    requires from <= 3 ==> Greater !in e
    requires from <= 4 ==> Lf !in e
    requires Cr !in e
    ensures from <= 1 ==> Subst(e, Quot, QuotEntity) == e
    ensures from <= 2 ==> Subst(e, Less, LtEntity) == e
    ensures from <= 3 ==> Subst(e, Greater, GtEntity) == e
    ensures from <= 4 ==> Subst(e, Lf, [Space]) == e
    ensures Subst(e, Cr, [Space]) == e
  {
    if from <= 1 { SubstAbsent(e, Quot, QuotEntity); }
    if from <= 2 { SubstAbsent(e, Less, LtEntity); }
    if from <= 3 { SubstAbsent(e, Greater, GtEntity); }
    if from <= 4 { SubstAbsent(e, Lf, [Space]); }
    SubstAbsent(e, Cr, [Space]);
  }

  /** The chain escapes a single unit as `EscapeUnit` does. */
  lemma ChainUnit(u: u16)
    ensures Chain([u]) == EscapeUnit(u)
  {
    var s1 := Subst([u], Amp, AmpEntity);
    SubstSingle(u, Amp, AmpEntity);
    if u == Amp {
      ChainTail(AmpEntity, 1);
      return;
    }
    assert s1 == [u];
    var s2 := Subst(s1, Quot, QuotEntity);
    SubstSingle(u, Quot, QuotEntity);
    if u == Quot {
      ChainTail(QuotEntity, 2);
      return;
    }
    assert s2 == [u];
    var s3 := Subst(s2, Less, LtEntity);
    SubstSingle(u, Less, LtEntity);
    if u == Less {
      ChainTail(LtEntity, 3);
      return;
    }
    assert s3 == [u];
    var s4 := Subst(s3, Greater, GtEntity);
    SubstSingle(u, Greater, GtEntity);
    if u == Greater {
      ChainTail(GtEntity, 4);
      return;
    }
    assert s4 == [u];
    var s5 := Subst(s4, Lf, [Space]);
    SubstSingle(u, Lf, [Space]);
    if u == Lf {
      ChainTail([Space], 5);
      return;
    }
    assert s5 == [u];
    SubstSingle(u, Cr, [Space]);
  }

  /** `XMLQuotes` is the unit-by-unit escaper. */
  lemma {:induction false} ChainIsEscape(s: Str)
    ensures Chain(s) == Escape(s)
    decreases |s|
  {
    if s != [] {
      assert s == [s[0]] + s[1..];
      ChainConcat([s[0]], s[1..]);
      ChainUnit(s[0]);
      ChainIsEscape(s[1..]);
    }
  }

  lemma XMLQuotesIsEscape(s: Str)
    ensures XMLQuotes(Some(s)) == Some(Escape(s))
  {
    var s1 := ReplaceAll(s, [Amp], AmpEntity);
    ReplaceUnit(s, Amp, AmpEntity);
    var s2 := ReplaceAll(s1, [Quot], QuotEntity);
    ReplaceUnit(s1, Quot, QuotEntity);
    var s3 := ReplaceAll(s2, [Less], LtEntity);
    ReplaceUnit(s2, Less, LtEntity);
    var s4 := ReplaceAll(s3, [Greater], GtEntity);
    ReplaceUnit(s3, Greater, GtEntity);
    var s5 := ReplaceAll(s4, [Lf], [Space]);
    ReplaceUnit(s4, Lf, [Space]);
    ReplaceUnit(s5, Cr, [Space]);
    ChainIsEscape(s);
  }

  /** The escaped text holds no markup character and no line break, and is no
      shorter than the input. */
  lemma XMLQuotesShape(s: Str)
    ensures XMLQuotes(Some(s)).Some?
    ensures var r := XMLQuotes(Some(s)).value;
      |r| >= |s| && Less !in r && Greater !in r && Quot !in r && Lf !in r && Cr !in r
  {
    XMLQuotesIsEscape(s);
  }

  /** Reads the four entities back; every other unit stands for itself. */
  function Unescape(t: Str): Str
    decreases |t|
  {
    if t == [] then []
    else if StartsWith(t, AmpEntity) then [Amp] + Unescape(t[|AmpEntity|..])
    else if StartsWith(t, QuotEntity) then [Quot] + Unescape(t[|QuotEntity|..])
    else if StartsWith(t, LtEntity) then [Less] + Unescape(t[|LtEntity|..])
    else if StartsWith(t, GtEntity) then [Greater] + Unescape(t[|GtEntity|..])
    else [t[0]] + Unescape(t[1..])
  }

  lemma UnescapeUnit(u: u16, rest: Str)
    requires u != Lf && u != Cr
    ensures Unescape(EscapeUnit(u) + rest) == [u] + Unescape(rest)
  {
    var t := EscapeUnit(u) + rest;
    if u == Amp {
      assert t[..5] == AmpEntity;
      assert t[5..] == rest;
    } else if u == Quot {
      assert t[..5] != AmpEntity by { assert t[1] != AmpEntity[1]; }
      assert t[..6] == QuotEntity;
      assert t[6..] == rest;
    } else if u == Less {
      if |t| >= 5 {
        assert t[..5] != AmpEntity by { assert t[1] != AmpEntity[1]; }
      }
      if |t| >= 6 {
        assert t[..6] != QuotEntity by { assert t[1] != QuotEntity[1]; }
      }
      assert t[..4] == LtEntity;
      assert t[4..] == rest;
    } else if u == Greater {
      if |t| >= 5 {
        assert t[..5] != AmpEntity by { assert t[1] != AmpEntity[1]; }
      }
      if |t| >= 6 {
        assert t[..6] != QuotEntity by { assert t[1] != QuotEntity[1]; }
      }
      assert t[..4] != LtEntity by { assert t[1] != LtEntity[1]; }
      assert t[..4] == GtEntity;
      assert t[4..] == rest;
    } else {
      assert t[0] == u;
      if |t| >= 5 {
        assert t[..5] != AmpEntity by { assert t[0] != AmpEntity[0]; }
      }
      if |t| >= 6 {
        assert t[..6] != QuotEntity by { assert t[0] != QuotEntity[0]; }
      }
      if |t| >= 4 {
        assert t[..4] != LtEntity by { assert t[0] != LtEntity[0]; }
        assert t[..4] != GtEntity by { assert t[0] != GtEntity[0]; }
      }
      assert t[1..] == rest;
    }
  }

  /** With `&` escaped first, no entity is escaped twice: a text without line
      breaks is recovered from its escape. */
  lemma {:induction false} EscapeRoundTrip(s: Str)
    requires Lf !in s && Cr !in s
    ensures Unescape(Escape(s)) == s
    decreases |s|
  {
    if s != [] {
      EscapeRoundTrip(s[1..]);
      UnescapeUnit(s[0], Escape(s[1..]));
      assert s == [s[0]] + s[1..];
    }
  }

  /** `Dequote(name)`: every apostrophe doubled, for an OData string literal. */
  function Dequote(name: Str): (r: Str)
    ensures Undouble(r) == name
    ensures |r| == |name| + Count(name, Apos)
  {
    ReplaceUnit(name, Apos, [Apos, Apos]);
    SubstDoubles(name);
    ReplaceAll(name, [Apos], [Apos, Apos])
  }

  /** Halves every doubled apostrophe. */
  function Undouble(t: Str): Str
    decreases |t|
  {
    if |t| >= 2 && t[0] == Apos && t[1] == Apos then [Apos] + Undouble(t[2..])
    else if t == [] then []
    else [t[0]] + Undouble(t[1..])
  }

  function Count(s: Str, u: u16): nat
    decreases |s|
  {
    if s == [] then 0 else (if s[0] == u then 1 else 0) + Count(s[1..], u)
  }

  lemma {:induction false} SubstDoubles(s: Str)
    ensures Undouble(Subst(s, Apos, [Apos, Apos])) == s
    ensures |Subst(s, Apos, [Apos, Apos])| == |s| + Count(s, Apos)
    decreases |s|
  {
    if s != [] {
      SubstDoubles(s[1..]);
      var r := Subst(s[1..], Apos, [Apos, Apos]);
      var t := Subst(s, Apos, [Apos, Apos]);
      if s[0] == Apos {
        assert t == [Apos, Apos] + r;
        assert t[2..] == r;
      } else {
        assert t == [s[0]] + r;
        assert t[1..] == r;
      }
      assert s == [s[0]] + s[1..];
    }
  }

  /** `Dequote` doubles every apostrophe and nothing else: it adds one unit per
      apostrophe, and halving the doubled apostrophes gives the input back. */
  lemma DequoteRoundTrip(s: Str)
    ensures Undouble(Dequote(s)) == s
    ensures |Dequote(s)| == |s| + Count(s, Apos)
  {
    ReplaceUnit(s, Apos, [Apos, Apos]);
    SubstDoubles(s);
  }
}
