/** The check `XName` applies to a local name (`XmlConvert.VerifyNCName`):
    the payload builders turn every field key into an element name, and a key
    that is not an XML name without colon raises before any request is made. */
module XmlNames {
  import opened Text

  /** A code unit that may start a name: a NameStartChar of XML 1.0 (fifth
      edition) other than `:`, within the Basic Multilingual Plane. */
  predicate IsStartUnit(u: u16) {
    (0x41 <= u <= 0x5A) || u == 0x5F || (0x61 <= u <= 0x7A)
    || (0xC0 <= u <= 0xD6) || (0xD8 <= u <= 0xF6) || (0xF8 <= u <= 0x2FF)
    || (0x370 <= u <= 0x37D) || (0x37F <= u <= 0x1FFF) || (0x200C <= u <= 0x200D)
    || (0x2070 <= u <= 0x218F) || (0x2C00 <= u <= 0x2FEF) || (0x3001 <= u <= 0xD7FF)
    || (0xF900 <= u <= 0xFDCF) || (0xFDF0 <= u <= 0xFFFD)
  }

  /** A code unit that may continue a name: a start unit, `-`, `.`, a digit,
      the middle dot, or a combining mark. */
  predicate IsNameUnit(u: u16) {
    IsStartUnit(u) || u == 0x2D || u == 0x2E || (0x30 <= u <= 0x39) || u == 0xB7
    || (0x300 <= u <= 0x36F) || (0x203F <= u <= 0x2040)
  }

  /** An NCName: a start unit followed by name units. */
  predicate IsNCName(s: Str) {
    |s| > 0 && IsStartUnit(s[0]) && forall i | 1 <= i < |s| :: IsNameUnit(s[i])
  }

  /** `ValidateNames.ParseNCName(s, 0)`: the length of the longest prefix of
      `s` that is an NCName, or 0 when `s` does not start with one. */
  method ParseNCName(s: Str) returns (end: nat)
    ensures end <= |s|
    ensures end == 0 <==> s == [] || !IsStartUnit(s[0])
    ensures end > 0 ==> IsNCName(s[..end])
    ensures 0 < end < |s| ==> !IsNameUnit(s[end])
  {
    if s == [] || !IsStartUnit(s[0]) {
      return 0;
    }
    end := 1;
    while end < |s| && IsNameUnit(s[end])
      invariant 1 <= end <= |s|
      invariant forall i | 1 <= i < end :: IsNameUnit(s[i])
      decreases |s| - end
    {
      end := end + 1;
    }
  }

  /** `XmlConvert.VerifyNCName(s)`: an empty name, or one whose longest
      NCName prefix is not the whole name, is refused. */
  method VerifyNCName(s: Str) returns (ok: bool)
    ensures ok <==> IsNCName(s)
  {
    if s == [] {
      return false;
    }
    var end := ParseNCName(s);
    ok := end == |s|;
  }

  /** A name carries no colon, space or `!` anywhere, and does not start with
      a digit, `-` or `.`. */
  lemma NCNameExcludes(s: Str)
    requires IsNCName(s)
    ensures Unit(':') !in s && Unit(' ') !in s && Unit('!') !in s
    ensures !(Unit('0') <= s[0] <= Unit('9')) && s[0] != Unit('-') && s[0] != Unit('.')
  {
    forall i | 0 <= i < |s| ensures s[i] != Unit(':') && s[i] != Unit(' ') && s[i] != Unit('!') {
      if i > 0 {
        assert IsNameUnit(s[i]);
      }
    }
  }

  /** The temporary keys of a record (those starting with `!`) are never names. */
  lemma TempKeyIsNotName(k: Str)
    requires |k| > 0 && k[0] == Unit('!')
    ensures !IsNCName(k)
  {
  }
}
