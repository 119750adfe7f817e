/** .NET strings as sequences of UTF-16 code units, and the ordinal string
    operations the client uses on them. */
module Text {

  /** A UTF-16 code unit, the element type of a .NET string. */
  newtype u16 = x: int | 0 <= x < 0x1_0000

  /** A .NET string: UTF-16 code units, not necessarily well-formed. */
  type Str = seq<u16>

  /** The code unit of a basic-plane character (every literal in this model is ASCII). */
  function Unit(c: char): u16 {
    if c as int < 0x1_0000 then c as int as u16 else 0xFFFD
  }

  /** The code units of a string literal. */
  function Lit(s: string): (r: Str)
    ensures |r| == |s|
    ensures forall i | 0 <= i < |s| :: r[i] == Unit(s[i])
  {
    seq(|s|, i requires 0 <= i < |s| => Unit(s[i]))
  }

  predicate StartsWith(s: Str, p: Str) {
    |p| <= |s| && s[..|p|] == p
  }

  predicate EndsWith(s: Str, p: Str) {
    |p| <= |s| && s[|s| - |p|..] == p
  }

  /** The window of `t` at `i` spells `p`. */
  predicate OccursAt(t: Str, p: Str, i: int) {
    0 <= i && i + |p| <= |t| && t[i..i + |p|] == p
  }

  /** No window of `t` spells `p`. */
  ghost predicate NoOccurrence(t: Str, p: Str) {
    forall i :: !OccursAt(t, p, i)
  }

  /** Ordinal `String.Replace(pat, rep)`: scans left to right and replaces
      every non-overlapping occurrence of `pat`. */
  function ReplaceAll(s: Str, pat: Str, rep: Str): Str
    requires |pat| > 0
    decreases |s|
  {
    if |s| < |pat| then s
    else if s[..|pat|] == pat then rep + ReplaceAll(s[|pat|..], pat, rep)
    else [s[0]] + ReplaceAll(s[1..], pat, rep)
  }

  /** Replacing a pattern that does not occur changes nothing. */
  lemma {:induction false} ReplaceAbsent(s: Str, pat: Str, rep: Str)
    requires |pat| > 0
    requires NoOccurrence(s, pat)
    ensures ReplaceAll(s, pat, rep) == s
    decreases |s|
  {
    if |s| >= |pat| {
      assert !OccursAt(s, pat, 0);
      assert s[..|pat|] == s[0..|pat|];
      assert NoOccurrence(s[1..], pat) by {
        forall i ensures !OccursAt(s[1..], pat, i) {
          if OccursAt(s[1..], pat, i) {
            assert s[1..][i..i + |pat|] == s[i + 1..i + 1 + |pat|];
            assert OccursAt(s, pat, i + 1);
          }
        }
      }
      ReplaceAbsent(s[1..], pat, rep);
    }
  }

  /** As long as the output of a replacement shows no first unit of the
      pattern, it is a copy of the input. */
  lemma {:induction false} ReplacePrefixUnchanged(t: Str, pat: Str, rep: Str, m: nat)
    requires |pat| > 0 && |rep| > 0 && rep[0] == pat[0]
    requires m <= |ReplaceAll(t, pat, rep)|
    requires forall j | 0 <= j < m :: ReplaceAll(t, pat, rep)[j] != pat[0]
    ensures m <= |t| && t[..m] == ReplaceAll(t, pat, rep)[..m]
    decreases |t|
  {
    var r := ReplaceAll(t, pat, rep);
    if |t| < |pat| {
    } else if t[..|pat|] == pat {
      assert r == rep + ReplaceAll(t[|pat|..], pat, rep);
      assert r[0] == pat[0];
    } else if m > 0 {
      var r' := ReplaceAll(t[1..], pat, rep);
      assert r == [t[0]] + r';
      forall j | 0 <= j < m - 1 ensures r'[j] != pat[0] {
        assert r'[j] == r[j + 1];
      }
      ReplacePrefixUnchanged(t[1..], pat, rep, m - 1);
      assert t[..m] == [t[0]] + t[1..][..m - 1];
      assert r[..m] == [t[0]] + r'[..m - 1];
    }
  }

  /** A replacement leaves no occurrence of the pattern behind, provided the
      pattern's first unit is unique in it, the replacement starts with that
      unit and nowhere else, and the two have the same length but differ. */
  lemma {:induction false} ReplaceRemovesPattern(s: Str, pat: Str, rep: Str)
    requires |pat| > 0 && |rep| == |pat| && rep != pat && rep[0] == pat[0]
    requires forall j | 1 <= j < |pat| :: pat[j] != pat[0]
    requires forall j | 1 <= j < |rep| :: rep[j] != pat[0]
    ensures NoOccurrence(ReplaceAll(s, pat, rep), pat)
    decreases |s|
  {
    var r := ReplaceAll(s, pat, rep);
    if |s| < |pat| {
    } else if s[..|pat|] == pat {
      var r' := ReplaceAll(s[|pat|..], pat, rep);
      ReplaceRemovesPattern(s[|pat|..], pat, rep);
      assert r == rep + r';
      forall i ensures !OccursAt(r, pat, i) {
        if 0 <= i && i + |pat| <= |r| {
          if i == 0 {
            assert r[0..|pat|] == rep;
          } else if i < |rep| {
            assert r[i..i + |pat|][0] == rep[i];
          } else {
            assert r[i..i + |pat|] == r'[i - |rep|..i - |rep| + |pat|];
            assert !OccursAt(r', pat, i - |rep|);
          }
        }
      }
    } else {
      var r' := ReplaceAll(s[1..], pat, rep);
      ReplaceRemovesPattern(s[1..], pat, rep);
      assert r == [s[0]] + r';
      forall i ensures !OccursAt(r, pat, i) {
        if 0 <= i && i + |pat| <= |r| {
          if i == 0 {
            assert s[..|pat|] == [s[0]] + s[1..][..|pat| - 1];
            assert r[0..|pat|] == [s[0]] + r'[..|pat| - 1];
            if r[0..|pat|] == pat {
              forall j | 0 <= j < |pat| - 1 ensures r'[j] != pat[0] {
                assert r'[j] == r[0..|pat|][j + 1];
              }
              ReplacePrefixUnchanged(s[1..], pat, rep, |pat| - 1);
              assert false;
            }
          } else {
            assert r[i..i + |pat|] == r'[i - 1..i - 1 + |pat|];
            assert !OccursAt(r', pat, i - 1);
          }
        }
      }
    }
  }

  /** Replaces every occurrence of the unit `c` by `rep`. */
  function Subst(s: Str, c: u16, rep: Str): Str
    decreases |s|
  {
    if s == [] then [] else (if s[0] == c then rep else [s[0]]) + Subst(s[1..], c, rep)
  }

  /** `String.Replace` with a one-unit pattern is a unit-wise substitution. */
  lemma {:induction false} ReplaceUnit(s: Str, c: u16, rep: Str)
    ensures ReplaceAll(s, [c], rep) == Subst(s, c, rep)
    decreases |s|
  {
    if s != [] {
      ReplaceUnit(s[1..], c, rep);
      assert s[..1] == [s[0]];
    }
  }

  lemma {:induction false} SubstConcat(a: Str, b: Str, c: u16, rep: Str)
    ensures Subst(a + b, c, rep) == Subst(a, c, rep) + Subst(b, c, rep)
    decreases |a|
  {
    if a == [] {
      assert a + b == b;
    } else {
      assert (a + b)[0] == a[0];
      assert (a + b)[1..] == a[1..] + b;
      SubstConcat(a[1..], b, c, rep);
      calc {
        Subst(a + b, c, rep);
        (if a[0] == c then rep else [a[0]]) + Subst(a[1..] + b, c, rep);
        (if a[0] == c then rep else [a[0]]) + (Subst(a[1..], c, rep) + Subst(b, c, rep));
      }
    }
  }

  lemma {:induction false} SubstAbsent(s: Str, c: u16, rep: Str)
    requires c !in s
    ensures Subst(s, c, rep) == s
    decreases |s|
  {
    if s != [] {
      SubstAbsent(s[1..], c, rep);
    }
  }

  /** The concatenation of a sequence of strings. */
  function Concat(parts: seq<Str>): Str
    decreases |parts|
  {
    if parts == [] then [] else Concat(parts[..|parts| - 1]) + parts[|parts| - 1]
  }

  /** `String.Join(sep, parts)`. */
  function Join(sep: Str, parts: seq<Str>): Str
    decreases |parts|
  {
    if parts == [] then []
    else if |parts| == 1 then parts[0]
    else Join(sep, parts[..|parts| - 1]) + sep + parts[|parts| - 1]
  }

  /** The units of `s` that are not separators, in order. */
  function Strip(s: Str, seps: set<u16>): Str
    decreases |s|
  {
    if s == [] then [] else (if s[0] in seps then [] else [s[0]]) + Strip(s[1..], seps)
  }

  /** The pending token `cur`, if any, as a one-element list. */
  function Flush(cur: Str): seq<Str> {
    if cur == [] then [] else [cur]
  }

  /** `String.Split(seps, RemoveEmptyEntries)` with `cur` the token read so far:
      the maximal separator-free runs of `s`, empty runs dropped. */
  function SplitFrom(s: Str, seps: set<u16>, cur: Str): seq<Str>
    decreases |s|
  {
    if s == [] then Flush(cur)
    else if s[0] in seps then Flush(cur) + SplitFrom(s[1..], seps, [])
    else SplitFrom(s[1..], seps, cur + [s[0]])
  }

  function Split(s: Str, seps: set<u16>): seq<Str> {
    SplitFrom(s, seps, [])
  }

  lemma ConcatAppend(parts: seq<Str>, more: seq<Str>)
    ensures Concat(parts + more) == Concat(parts) + Concat(more)
    decreases |more|
  {
    if more == [] {
      assert parts + more == parts;
    } else {
      var all := parts + more;
      assert all[..|all| - 1] == parts + more[..|more| - 1];
      assert all[|all| - 1] == more[|more| - 1];
      ConcatAppend(parts, more[..|more| - 1]);
      calc {
        Concat(all);
        Concat(all[..|all| - 1]) + all[|all| - 1];
        Concat(parts) + Concat(more[..|more| - 1]) + more[|more| - 1];
      }
    }
  }

  /** A non-empty run of non-separator units. */
  predicate IsToken(t: Str, seps: set<u16>) {
    |t| > 0 && forall j | 0 <= j < |t| :: t[j] !in seps
  }

  lemma FlushConcat(cur: Str)
    ensures Concat(Flush(cur)) == cur
  {
    if cur != [] {
      assert Flush(cur)[..0] == [];
    }
  }

  /** Split's tokens are non-empty and free of separators. */
  lemma {:induction false} SplitFromShape(s: Str, seps: set<u16>, cur: Str)
    requires forall j | 0 <= j < |cur| :: cur[j] !in seps
    ensures forall i | 0 <= i < |SplitFrom(s, seps, cur)| :: IsToken(SplitFrom(s, seps, cur)[i], seps)
    decreases |s|
  {
    if s == [] {
    } else if s[0] in seps {
      SplitFromShape(s[1..], seps, []);
    } else {
      SplitFromShape(s[1..], seps, cur + [s[0]]);
    }
  }

  /** Together, Split's tokens are exactly the non-separator units, in order. */
  lemma {:induction false} SplitFromConcat(s: Str, seps: set<u16>, cur: Str)
    ensures Concat(SplitFrom(s, seps, cur)) == cur + Strip(s, seps)
    decreases |s|
  {
    if s == [] {
      FlushConcat(cur);
    } else if s[0] in seps {
      SplitFromConcat(s[1..], seps, []);
      ConcatAppend(Flush(cur), SplitFrom(s[1..], seps, []));
      FlushConcat(cur);
    } else {
      SplitFromConcat(s[1..], seps, cur + [s[0]]);
    }
  }

  lemma SplitTokens(s: Str, seps: set<u16>)
    ensures forall i | 0 <= i < |Split(s, seps)| :: IsToken(Split(s, seps)[i], seps)
    ensures Concat(Split(s, seps)) == Strip(s, seps)
  {
    SplitFromShape(s, seps, []);
    SplitFromConcat(s, seps, []);
  }

  /** A unit of a part is a unit of the concatenation. */
  lemma ConcatContains(parts: seq<Str>, i: nat, u: u16)
    requires i < |parts| && u in parts[i]
    ensures u in Concat(parts)
    decreases |parts|
  {
    if i < |parts| - 1 {
      ConcatContains(parts[..|parts| - 1], i, u);
    }
  }

  lemma StripContains(s: Str, seps: set<u16>, u: u16)
    requires u in Strip(s, seps)
    ensures u in s
    decreases |s|
  {
    if s[0] != u {
      StripContains(s[1..], seps, u);
    }
  }

  /** The index of the last occurrence of `c` (`LastIndexOf`). */
  function LastIndex(s: Str, c: u16): (r: nat)
    requires c in s
    ensures r < |s| && s[r] == c
    ensures forall j | r < j < |s| :: s[j] != c
    decreases |s|
  {
    if s[|s| - 1] == c then |s| - 1 else LastIndex(s[..|s| - 1], c)
  }

  /** ASCII lower-casing, the part of `ToLower()` the client's comparisons rely on. */
  function LowerAscii(s: Str): (r: Str)
    ensures |r| == |s|
    ensures forall i | 0 <= i < |s| :: r[i] == (if 0x41 <= s[i] <= 0x5A then s[i] + 0x20 else s[i])
  {
    seq(|s|, i requires 0 <= i < |s| => if 0x41 <= s[i] <= 0x5A then s[i] + 0x20 else s[i])
  }
}
