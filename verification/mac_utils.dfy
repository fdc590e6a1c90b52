/** MAC address text codec (mac_utils.py): the canonical `aa:bb:cc:dd:ee:ff` spelling,
    and the MAC <-> SNMP OID-suffix mapping in which a six-octet MAC used as a table
    index becomes six decimal sub-identifiers, one per octet (section 7.7 of RFC 2578). */
module MacUtils {
  import opened Wrappers
  import opened Text
  import opened Numerals

  /** The `ValueError`s of this module, with the text that was rejected. */
  datatype MacError =
    | InvalidMac(mac: string)
    | InvalidOidSuffix(suffix: string)
    | InvalidLiteral(text: string)

  /** The characters `normalize_mac` deletes: `:`, `-` and `.`. */
  predicate IsSeparator(c: char) {
    c == ':' || c == '-' || c == '.'
  }

  predicate IsNotSeparator(c: char) {
    !IsSeparator(c)
  }

  predicate NoSeparators(s: string) {
    forall i :: 0 <= i < |s| ==> IsNotSeparator(s[i])
  }

  /** `re.sub(r"[:\-\.]", "", s)`. */
  function RemoveSeparators(s: string): (r: string)
    ensures NoSeparators(r)
  {
    if |s| == 0 then ""
    else (if IsSeparator(s[0]) then "" else [s[0]]) + RemoveSeparators(s[1..])
  }

  lemma {:induction false} RemoveSeparatorsConcat(a: string, b: string)
    ensures RemoveSeparators(a + b) == RemoveSeparators(a) + RemoveSeparators(b)
  {
    if |a| > 0 {
      RemoveSeparatorsConcat(a[1..], b);
      assert (a + b)[1..] == a[1..] + b;
    } else {
      assert a + b == b;
    }
  }

  lemma {:induction false} RemoveSeparatorsUnchanged(s: string)
    requires NoSeparators(s)
    ensures RemoveSeparators(s) == s
  {
    if |s| > 0 {
      RemoveSeparatorsUnchanged(s[1..]);
    }
  }

  /** Lower-casing and deleting separators commute: no separator is a letter. */
  lemma {:induction false} RemoveSeparatorsLower(s: string)
    ensures RemoveSeparators(Lower(s)) == Lower(RemoveSeparators(s))
  {
    if |s| > 0 {
      RemoveSeparatorsLower(s[1..]);
      assert Lower(s)[1..] == Lower(s[1..]);
      LowerConcat(if IsSeparator(s[0]) then "" else [s[0]], RemoveSeparators(s[1..]));
    }
  }

  /** Deleting the separators of a join leaves the parts end to end. */
  lemma {:induction false} RemoveSeparatorsOfJoin(parts: seq<string>, sep: char)
    requires IsSeparator(sep)
    requires forall i :: 0 <= i < |parts| ==> NoSeparators(parts[i])
    ensures RemoveSeparators(Join(parts, [sep])) == Concat(parts)
  {
    if |parts| == 1 {
      RemoveSeparatorsUnchanged(parts[0]);
      assert Concat(parts) == parts[0] + Concat([]);
    } else if |parts| > 1 {
      RemoveSeparatorsOfJoin(parts[1..], sep);
      var rest := Join(parts[1..], [sep]);
      RemoveSeparatorsConcat(parts[0], [sep] + rest);
      RemoveSeparatorsConcat([sep], rest);
      RemoveSeparatorsUnchanged(parts[0]);
      assert parts[0] + [sep] + rest == parts[0] + ([sep] + rest);
    }
  }

  /** What `normalize_mac` validates: the input trimmed, lower-cased, separators deleted. */
  function Clean(mac: string): string {
    RemoveSeparators(Lower(Strip(mac)))
  }

  /** `d` cut into consecutive pieces of `w` characters (the last may be shorter). */
  function Chunks(d: string, w: nat): (r: seq<string>)
    requires w > 0
    ensures |r| >= 1
    ensures Concat(r) == d
    decreases |d|
  {
    if |d| <= w then [d]
    else
      assert d == d[..w] + d[w..];
      [d[..w]] + Chunks(d[w..], w)
  }

  /** Every character of `s` has property `p`. */
  predicate Every(s: string, p: char -> bool) {
    forall j :: 0 <= j < |s| ==> p(s[j])
  }

  /** A property of every character of `d` holds of every character of every piece. */
  lemma {:induction false} ChunksKeep(d: string, w: nat, p: char -> bool)
    requires w > 0 && Every(d, p)
    ensures forall i :: 0 <= i < |Chunks(d, w)| ==> Every(Chunks(d, w)[i], p)
    decreases |d|
  {
    if |d| > w {
      assert Every(d[w..], p);
      ChunksKeep(d[w..], w, p);
      var rest := Chunks(d[w..], w);
      var r := [d[..w]] + rest;
      assert Chunks(d, w) == r;
      assert Every(d[..w], p);
      assert forall i :: 1 <= i < |r| ==> r[i] == rest[i - 1];
    }
  }

  /** A string of `k * w` characters cuts into `k` full pieces. */
  lemma {:induction false} ChunksWidth(d: string, w: nat, k: nat)
    requires w > 0 && k > 0 && |d| == w * k
    ensures var r := Chunks(d, w); |r| == k && forall i :: 0 <= i < |r| ==> |r[i]| == w
    decreases k
  {
    if k > 1 {
      assert |d[w..]| == w * (k - 1);
      ChunksWidth(d[w..], w, k - 1);
      var rest := Chunks(d[w..], w);
      assert Chunks(d, w) == [d[..w]] + rest;
    } else {
      assert |d| == w;
    }
  }

  /** Pieces of equal width `w` laid end to end are `w` times as long as there are pieces. */
  lemma {:induction false} ConcatWidth(parts: seq<string>, w: nat)
    requires forall i :: 0 <= i < |parts| ==> |parts[i]| == w
    ensures |Concat(parts)| == w * |parts|
  {
    if |parts| > 0 {
      ConcatWidth(parts[1..], w);
    }
  }

  /** Cutting the concatenation of equal-width pieces gives the pieces back. */
  lemma {:induction false} ChunksOfConcat(parts: seq<string>, w: nat)
    requires w > 0 && |parts| >= 1
    requires forall i :: 0 <= i < |parts| ==> |parts[i]| == w
    ensures Chunks(Concat(parts), w) == parts
  {
    if |parts| > 1 {
      ChunksOfConcat(parts[1..], w);
      ConcatWidth(parts[1..], w);
      var c := Concat(parts);
      assert c == parts[0] + Concat(parts[1..]);
      assert c[..w] == parts[0];
      assert c[w..] == Concat(parts[1..]);
    } else {
      assert parts[1..] == [];
      assert Concat(parts) == parts[0] + Concat([]);
      assert Concat(parts) == parts[0];
    }
  }

  /** `d` written in groups of `w` characters separated by `sep`. */
  function Grouped(d: string, sep: char, w: nat): string
    requires w > 0
  {
    Join(Chunks(d, w), [sep])
  }

  /** The four spellings `normalize_mac` documents, of the twelve hex digits `d`. */
  function ColonSpelling(d: string): string { Grouped(d, ':', 2) }
  function DashSpelling(d: string): string { Grouped(d, '-', 2) }
  function CiscoSpelling(d: string): string { Grouped(d, '.', 4) }
  function BareSpelling(d: string): string { d }

  /** The canonical spelling: exactly six two-character lower-case hex groups joined by `:`. */
  predicate IsCanonicalMac(m: string) {
    var g := Split(m, ':');
    |g| == 6 && forall i :: 0 <= i < 6 ==> |g[i]| == 2 && AllLowerHexDigits(g[i])
  }

  /** A grouped spelling begins and ends with the first and last digit. */
  lemma {:induction false} GroupedEnds(d: string, sep: char, w: nat)
    requires w > 0 && |d| > 0
    ensures var g := Grouped(d, sep, w); |g| > 0 && g[0] == d[0] && g[|g| - 1] == d[|d| - 1]
  {
    if |d| > w {
      GroupedEnds(d[w..], sep, w);
      var rest := Grouped(d[w..], sep, w);
      assert Grouped(d, sep, w) == d[..w] + [sep] + rest;
    }
  }

  /** Twelve lower-case hex digits grouped in pairs with `:` are canonical, keep their digits,
      and are seventeen characters long. */
  lemma CanonicalOfDigits(c: string)
    requires |c| == 12 && AllLowerHexDigits(c)
    ensures IsCanonicalMac(Grouped(c, ':', 2))
    ensures RemoveSeparators(Grouped(c, ':', 2)) == c
    ensures |Grouped(c, ':', 2)| == 17
  {
    var parts := Chunks(c, 2);
    assert Every(c, IsLowerHexDigit);
    ChunksKeep(c, 2, IsLowerHexDigit);
    assert forall i :: 0 <= i < |parts| ==> AllLowerHexDigits(parts[i]);
    ChunksWidth(c, 2, 6);
    assert forall i :: 0 <= i < |parts| ==> ':' !in parts[i] by {
      forall i | 0 <= i < |parts|
        ensures ':' !in parts[i]
      {
        assert Every(parts[i], IsLowerHexDigit);
      }
    }
    SplitOfJoin(parts, ':');
    RemoveSeparatorsOfJoin(parts, ':');
    JoinLength(parts, ":");
  }

  /** `normalize_mac`. */
  function NormalizeMac(mac: string): (r: Result<string, MacError>)
    ensures r.Success? <==> mac == "" || (|Clean(mac)| == 12 && AllLowerHexDigits(Clean(mac)))
    ensures mac == "" ==> r == Success("")
    ensures mac != "" && |Clean(mac)| != 12 ==> r == Failure(InvalidMac(mac))
    ensures mac != "" && |Clean(mac)| == 12 && !AllLowerHexDigits(Clean(mac)) ==>
      r == Failure(InvalidMac(mac))
    ensures mac != "" && r.Success? ==>
      IsCanonicalMac(r.value) && |r.value| == 17 && RemoveSeparators(r.value) == Clean(mac)
  {
    if mac == "" then Success("")
    else
      var c := Clean(mac);
      if |c| != 12 then Failure(InvalidMac(mac))
      else if !AllLowerHexDigits(c) then Failure(InvalidMac(mac))
      else
        CanonicalOfDigits(c);
        Success(Grouped(c, ':', 2))
  }

  /** Whitespace around a non-empty address is ignored: the padded and the bare spelling are
      accepted together and normalize alike. (An empty address is the exception: it is returned
      as it is, while whitespace alone is rejected.) */
  lemma NormalizeIgnoresPadding(p: string, mac: string, q: string)
    requires AllSpace(p) && AllSpace(q) && mac != ""
    ensures NormalizeMac(p + mac + q).Success? <==> NormalizeMac(mac).Success?
    ensures NormalizeMac(mac).Success? ==> NormalizeMac(p + mac + q) == NormalizeMac(mac)
  {
    StripIgnoresPadding(p, mac, q);
    assert Clean(p + mac + q) == Clean(mac);
  }

  /** Deleting the separators of a grouped spelling gives its digits back. */
  lemma RemoveSeparatorsGrouped(d: string, sep: char, w: nat)
    requires NoSeparators(d) && IsSeparator(sep) && w > 0
    ensures RemoveSeparators(Grouped(d, sep, w)) == d
  {
    var parts := Chunks(d, w);
    assert Every(d, IsNotSeparator);
    ChunksKeep(d, w, IsNotSeparator);
    assert forall i :: 0 <= i < |parts| ==> NoSeparators(parts[i]);
    RemoveSeparatorsOfJoin(parts, sep);
  }

  lemma HexDigitIsNeither(c: char)
    requires IsHexDigit(c)
    ensures !IsSpace(c) && !IsSeparator(c)
  {
  }

  /** What `normalize_mac` validates of a grouped spelling of hex digits is the digits, lower-cased. */
  lemma CleanOfGrouped(d: string, sep: char, w: nat)
    requires |d| > 0 && AllHexDigits(d)
    requires IsSeparator(sep) && w > 0
    ensures Clean(Grouped(d, sep, w)) == Lower(d)
  {
    var x := Grouped(d, sep, w);
    GroupedEnds(d, sep, w);
    HexDigitIsNeither(d[0]);
    HexDigitIsNeither(d[|d| - 1]);
    assert Strip(x) == x;
    assert NoSeparators(d) by {
      forall i | 0 <= i < |d|
        ensures !IsSeparator(d[i])
      {
        HexDigitIsNeither(d[i]);
      }
    }
    RemoveSeparatorsGrouped(d, sep, w);
    RemoveSeparatorsLower(x);
  }

  /** Any grouping of twelve hex digits (either case) with a separator normalizes to the
      canonical spelling of those digits lower-cased. */
  lemma NormalizeGrouped(d: string, sep: char, w: nat)
    requires |d| == 12 && AllHexDigits(d)
    requires IsSeparator(sep) && w > 0
    ensures NormalizeMac(Grouped(d, sep, w)) == Success(Grouped(Lower(d), ':', 2))
  {
    var x := Grouped(d, sep, w);
    CleanOfGrouped(d, sep, w);
    GroupedEnds(d, sep, w);
    assert x != "";
    LowerOfHexDigits(d);
    assert Clean(x) == Lower(d) && |Lower(d)| == 12;
  }

  /** Lower-casing hex digits gives lower-case hex digits. */
  lemma LowerOfHexDigits(d: string)
    requires AllHexDigits(d)
    ensures AllLowerHexDigits(Lower(d))
  {
    var l := Lower(d);
    forall i | 0 <= i < |l| ensures IsLowerHexDigit(l[i]) {
      assert l[i] == LowerChar(d[i]) && IsHexDigit(d[i]);
    }
  }

  /** The documented spellings of the same twelve hex digits, in any case, all normalize to
      the same canonical MAC. */
  lemma SpellingsAgree(d: string)
    requires |d| == 12 && AllHexDigits(d)
    ensures NormalizeMac(ColonSpelling(d)) == Success(Grouped(Lower(d), ':', 2))
    ensures NormalizeMac(DashSpelling(d)) == Success(Grouped(Lower(d), ':', 2))
    ensures NormalizeMac(CiscoSpelling(d)) == Success(Grouped(Lower(d), ':', 2))
    ensures NormalizeMac(BareSpelling(d)) == Success(Grouped(Lower(d), ':', 2))
  {
    NormalizeGrouped(d, ':', 2);
    NormalizeGrouped(d, '-', 2);
    NormalizeGrouped(d, '.', 4);
    NormalizeGrouped(d, '-', 12);
    assert Chunks(d, 12) == [d];
    assert Grouped(d, '-', 12) == d;
  }

  /** A canonical MAC is the pair-grouping of its own twelve digits. */
  lemma CanonicalIsGrouped(m: string)
    requires IsCanonicalMac(m)
    ensures var c := Concat(Split(m, ':'));
      |c| == 12 && AllLowerHexDigits(c) && m == Grouped(c, ':', 2)
  {
    var g := Split(m, ':');
    JoinOfSplit(m, ':');
    ChunksOfConcat(g, 2);
    ConcatWidth(g, 2);
    ConcatAllLowerHex(g);
  }

  /** A canonical MAC is a fixed point of normalization. */
  lemma CanonicalIsNormal(m: string)
    requires IsCanonicalMac(m)
    ensures NormalizeMac(m) == Success(m)
  {
    var c := Concat(Split(m, ':'));
    CanonicalIsGrouped(m);
    assert AllHexDigits(c);
    NormalizeGrouped(c, ':', 2);
    LowerUnchanged(c);
  }

  lemma {:induction false} ConcatAllLowerHex(parts: seq<string>)
    requires forall i :: 0 <= i < |parts| ==> AllLowerHexDigits(parts[i])
    ensures AllLowerHexDigits(Concat(parts))
  {
    if |parts| > 0 {
      ConcatAllLowerHex(parts[1..]);
    }
  }

  /** Normalization is idempotent. */
  lemma NormalizeIdempotent(mac: string)
    requires NormalizeMac(mac).Success?
    ensures NormalizeMac(NormalizeMac(mac).value) == NormalizeMac(mac)
  {
    if mac != "" {
      CanonicalIsNormal(NormalizeMac(mac).value);
    }
  }

  /** `int(p, 16)` for each part in order; the first part that raises is reported. */
  function ParseHexAll(parts: seq<string>): (r: Result<seq<nat>, string>)
    ensures r.Success? ==> |r.value| == |parts|
  {
    if |parts| == 0 then Success([])
    else
      match ParseHex(parts[0])
      case None => Failure(parts[0])
      case Some(v) =>
        match ParseHexAll(parts[1..])
        case Failure(p) => Failure(p)
        case Success(vs) => Success([v] + vs)
  }

  /** `int(p)` for each part in order; the first part that raises is reported. */
  function ParseIntAll(parts: seq<string>): (r: Result<seq<int>, string>)
    ensures r.Success? ==> |r.value| == |parts|
  {
    if |parts| == 0 then Success([])
    else
      match ParseInt(parts[0])
      case None => Failure(parts[0])
      case Some(v) =>
        match ParseIntAll(parts[1..])
        case Failure(p) => Failure(p)
        case Success(vs) => Success([v] + vs)
  }

  /** `str(v)` of each value. */
  function Decimals(vs: seq<int>): (r: seq<string>)
    ensures |r| == |vs| && forall i :: 0 <= i < |vs| ==> r[i] == IntToDecimal(vs[i])
  {
    seq(|vs|, i requires 0 <= i < |vs| => IntToDecimal(vs[i]))
  }

  /** `f"{v:02x}"` of each value. */
  function HexOctets(vs: seq<int>): (r: seq<string>)
    ensures |r| == |vs| && forall i :: 0 <= i < |vs| ==> r[i] == Format02x(vs[i])
  {
    seq(|vs|, i requires 0 <= i < |vs| => Format02x(vs[i]))
  }

  /** `":".join(f"{v:02x}" for v in vs)`: how both `oid_suffix_to_mac` and the Huawei
      FDB decoder spell a MAC from its octet values. */
  function JoinHexOctets(vs: seq<int>): string {
    Join(HexOctets(vs), ":")
  }

  predicate IsByte(v: int) {
    0 <= v < 256
  }

  /** Two-digit lower-case hex groups parse to bytes that print back as the same groups. */
  lemma {:induction false} ParseHexAllOfBytes(g: seq<string>)
    requires forall i :: 0 <= i < |g| ==> |g[i]| == 2 && AllLowerHexDigits(g[i])
    ensures ParseHexAll(g).Success?
    ensures var vs := ParseHexAll(g).value;
      (forall i :: 0 <= i < |vs| ==> IsByte(vs[i])) && HexOctets(vs) == g
  {
    if |g| > 0 {
      HexByteRoundTrip(g[0]);
      ParseHexAllOfBytes(g[1..]);
      var vs := ParseHexAll(g).value;
      assert vs == [HexValue(g[0])] + ParseHexAll(g[1..]).value;
      assert forall i :: 1 <= i < |vs| ==> vs[i] == ParseHexAll(g[1..]).value[i - 1];
      assert HexOctets(vs)[1..] == HexOctets(ParseHexAll(g[1..]).value);
    }
  }

  /** `str` then `int` gives every value back. */
  lemma ParseIntAllOfDecimals(vs: seq<int>)
    ensures ParseIntAll(Decimals(vs)) == Success(vs)
  {
    var ds := Decimals(vs);
    forall i | 0 <= i < |vs| ensures ParseInt(ds[i]) == Some(vs[i]) {
      ParseIntOfIntToDecimal(vs[i]);
    }
    ParseIntAllOfParsed(ds, vs);
  }

  lemma {:induction false} ParseIntAllOfParsed(parts: seq<string>, vs: seq<int>)
    requires |parts| == |vs| && forall i :: 0 <= i < |vs| ==> ParseInt(parts[i]) == Some(vs[i])
    ensures ParseIntAll(parts) == Success(vs)
  {
    if |vs| > 0 {
      var ps, ws := parts[1..], vs[1..];
      forall i | 0 <= i < |ws| ensures ParseInt(ps[i]) == Some(ws[i]) {
        assert ps[i] == parts[i + 1] && ws[i] == vs[i + 1];
      }
      ParseIntAllOfParsed(ps, ws);
      ParseIntAllCons(parts, vs[0], ws);
      assert vs == [vs[0]] + ws;
    }
  }

  /** One step of `ParseIntAll`: a parsed head followed by a parsed tail. */
  lemma ParseIntAllCons(parts: seq<string>, v: int, vs: seq<int>)
    requires |parts| > 0 && ParseInt(parts[0]) == Some(v) && ParseIntAll(parts[1..]) == Success(vs)
    ensures ParseIntAll(parts) == Success([v] + vs)
  {
  }

  /** Decimal numerals hold no `.`, so they survive a join/split round trip. */
  lemma SplitOfDecimals(vs: seq<int>)
    requires |vs| >= 1
    ensures Split(Join(Decimals(vs), "."), '.') == Decimals(vs)
  {
    var ds := Decimals(vs);
    forall i | 0 <= i < |ds|
      ensures '.' !in ds[i]
    {
      var d := NatToDecimal(if vs[i] < 0 then -vs[i] else vs[i]);
      assert ds[i] == d || ds[i] == "-" + d;
      assert forall j :: 0 <= j < |d| ==> d[j] != '.';
    }
    SplitOfJoin(ds, '.');
  }

  /** `mac_to_oid_suffix`: normalize, split the octets at `:`, and print each as a decimal
      sub-identifier joined by `.`. The empty MAC normalizes to `""`, whose single empty octet
      `int("", 16)` rejects. */
  function MacToOidSuffix(mac: string): (r: Result<string, MacError>)
    ensures r.Success? <==> mac != "" && NormalizeMac(mac).Success?
    ensures r.Success? ==>
      var parts := Split(r.value, '.');
      |parts| == 6 &&
      forall i :: 0 <= i < 6 ==> |parts[i]| > 0 && AllDigits(parts[i]) && DecimalValue(parts[i]) < 256
  {
    match NormalizeMac(mac)
    case Failure(e) => Failure(e)
    case Success(normalized) =>
      var octets := Split(normalized, ':');
      if mac == "" then
        assert octets == [""];
        Failure(InvalidLiteral(""))
      else
        ParseHexAllOfBytes(octets);
        match ParseHexAll(octets)
        case Failure(p) => Failure(InvalidLiteral(p))
        case Success(vs) =>
          SplitOfDecimals(vs);
          forall i | 0 <= i < 6
            ensures DecimalValue(NatToDecimal(vs[i])) < 256
          {
            DecimalValueOfNatToDecimal(vs[i]);
          }
          Success(Join(Decimals(vs), "."))
  }

  /** `oid_suffix_to_mac`: exactly six `.`-separated parts, each read with `int` and printed
      as `02x`. Nothing checks that a part is at most 255. */
  function OidSuffixToMac(suffix: string): (r: Result<string, MacError>)
    ensures |Split(suffix, '.')| != 6 ==> r == Failure(InvalidOidSuffix(suffix))
    ensures r.Success? ==> |Split(suffix, '.')| == 6 && |Split(r.value, ':')| == 6
  {
    var parts := Split(suffix, '.');
    if |parts| != 6 then Failure(InvalidOidSuffix(suffix))
    else
      match ParseIntAll(parts)
      case Failure(p) => Failure(InvalidLiteral(p))
      case Success(vs) =>
        SplitOfHexOctets(vs);
        Success(JoinHexOctets(vs))
  }

  /** `02x` spellings hold no `:`, so the groups of a joined MAC split apart again. */
  lemma SplitOfHexOctets(vs: seq<int>)
    requires |vs| >= 1
    ensures Split(JoinHexOctets(vs), ':') == HexOctets(vs)
  {
    var hs := HexOctets(vs);
    forall i | 0 <= i < |hs|
      ensures ':' !in hs[i]
    {
      assert forall j :: 0 <= j < |hs[i]| ==> hs[i][j] == '-' || IsLowerHexDigit(hs[i][j]);
    }
    SplitOfJoin(hs, ':');
  }

  /** Any six sub-identifiers, printed and joined by `.`, decode to their `02x` spellings:
      decoding needs no more than the numbers themselves. */
  lemma OidSuffixOfComponents(vs: seq<int>)
    requires |vs| == 6
    ensures OidSuffixToMac(Join(Decimals(vs), ".")) == Success(JoinHexOctets(vs))
  {
    SplitOfDecimals(vs);
    ParseIntAllOfDecimals(vs);
  }

  /** Six byte values spell a canonical MAC. */
  lemma JoinHexOctetsOfBytes(vs: seq<int>)
    requires |vs| == 6 && forall i :: 0 <= i < 6 ==> IsByte(vs[i])
    ensures IsCanonicalMac(JoinHexOctets(vs))
  {
    SplitOfHexOctets(vs);
    forall i | 0 <= i < 6
      ensures |HexOctets(vs)[i]| == 2 && AllLowerHexDigits(HexOctets(vs)[i])
    {
      Format02xOfByte(vs[i]);
    }
  }

  /** Round trip: decoding the suffix `mac_to_oid_suffix` produces gives the normalized MAC. */
  lemma MacOidSuffixRoundTrip(mac: string)
    requires MacToOidSuffix(mac).Success?
    ensures OidSuffixToMac(MacToOidSuffix(mac).value) == NormalizeMac(mac)
  {
    var normalized := NormalizeMac(mac).value;
    var octets := Split(normalized, ':');
    ParseHexAllOfBytes(octets);
    var vs := ParseHexAll(octets).value;
    OidSuffixOfComponents(vs);
    JoinOfSplit(normalized, ':');
  }

  /** Round trip the other way: six bytes spelled as a MAC encode to the suffix of their
      decimal values, which is how an FDB table indexes them. */
  lemma OctetsOidSuffixRoundTrip(vs: seq<int>)
    requires |vs| == 6 && forall i :: 0 <= i < 6 ==> IsByte(vs[i])
    ensures MacToOidSuffix(JoinHexOctets(vs)) == Success(Join(Decimals(vs), "."))
  {
    var m := JoinHexOctets(vs);
    JoinHexOctetsOfBytes(vs);
    CanonicalIsNormal(m);
    SplitOfHexOctets(vs);
    var octets := HexOctets(vs);
    forall i | 0 <= i < 6
      ensures |octets[i]| == 2 && AllLowerHexDigits(octets[i]) && HexValue(octets[i]) == vs[i]
    {
      Format02xOfByte(vs[i]);
      ParseHexOfFormat02x(vs[i]);
    }
    ParseHexAllOfBytes(octets);
    var ws := ParseHexAll(octets).value;
    HexOctetsInjective(ws, vs);
    assert NormalizeMac(m) == Success(m) && Split(m, ':') == octets;
    assert ParseHexAll(Split(m, ':')) == Success(vs);
  }

  /** Bytes are determined by their `02x` spellings. */
  lemma HexOctetsInjective(us: seq<int>, vs: seq<int>)
    requires forall i :: 0 <= i < |us| ==> IsByte(us[i])
    requires forall i :: 0 <= i < |vs| ==> IsByte(vs[i])
    requires HexOctets(us) == HexOctets(vs)
    ensures us == vs
  {
    forall i | 0 <= i < |us|
      ensures us[i] == vs[i]
    {
      ParseHexOfFormat02x(us[i]);
      ParseHexOfFormat02x(vs[i]);
    }
  }

  /** With no range check, a sub-identifier above 255 decodes to a group of three or more hex
      digits, which `normalize_mac` then rejects. */
  lemma OidSuffixAbove255(vs: seq<int>, k: nat)
    requires |vs| == 6 && forall i :: 0 <= i < 6 ==> vs[i] >= 0
    requires k < 6 && vs[k] > 255
    ensures OidSuffixToMac(Join(Decimals(vs), ".")).Success?
    ensures !IsCanonicalMac(OidSuffixToMac(Join(Decimals(vs), ".")).value)
    ensures NormalizeMac(OidSuffixToMac(Join(Decimals(vs), ".")).value).Failure?
  {
    OidSuffixOfComponents(vs);
    SplitOfHexOctets(vs);
    var hs := HexOctets(vs);
    var m := JoinHexOctets(vs);
    assert |hs[k]| >= 3 by {
      assert ToHex(vs[k]) == ToHex(vs[k] / 16) + [HexDigitChar(vs[k] % 16)];
    }
    CleanOfHexGroups(hs, k);
  }

  /** Six groups of hex digits, one of them three or more long, leave at least thirteen
      digits once cleaned. */
  lemma CleanOfHexGroups(hs: seq<string>, k: nat)
    requires |hs| == 6 && k < 6 && |hs[k]| >= 3
    requires forall i :: 0 <= i < 6 ==> |hs[i]| >= 2 && AllLowerHexDigits(hs[i])
    ensures |Clean(Join(hs, ":"))| >= 13
  {
    var x := Join(hs, ":");
    JoinStart(hs, ":");
    JoinEnd(hs, ":");
    HexDigitIsNeither(hs[0][0]);
    HexDigitIsNeither(hs[5][|hs[5]| - 1]);
    assert Strip(x) == x;
    forall i | 0 <= i < 6
      ensures NoSeparators(hs[i])
    {
      forall j | 0 <= j < |hs[i]|
        ensures IsNotSeparator(hs[i][j])
      {
        HexDigitIsNeither(hs[i][j]);
      }
    }
    RemoveSeparatorsOfJoin(hs, ':');
    RemoveSeparatorsLower(x);
    ConcatAtLeast(hs, k);
  }

  lemma {:induction false} ConcatAtLeast(parts: seq<string>, k: nat)
    requires k < |parts| && |parts[k]| >= 3
    requires forall i :: 0 <= i < |parts| ==> |parts[i]| >= 2
    ensures |Concat(parts)| >= 2 * |parts| + 1
  {
    if k > 0 {
      ConcatAtLeast(parts[1..], k - 1);
    } else {
      ConcatAtLeast2(parts[1..]);
    }
  }

  lemma {:induction false} ConcatAtLeast2(parts: seq<string>)
    requires forall i :: 0 <= i < |parts| ==> |parts[i]| >= 2
    ensures |Concat(parts)| >= 2 * |parts|
  {
    if |parts| > 0 {
      ConcatAtLeast2(parts[1..]);
    }
  }
}
