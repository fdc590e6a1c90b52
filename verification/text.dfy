/** The Python string primitives the parsers are built from: `str.split` with a
    one-character separator, `str.join`, `str.strip()` and `str.lower()`. */
module Text {

  /** Python's `str.isspace()` for a single character: exactly the characters `strip()` removes. */
  predicate IsSpace(c: char) {
    var n := c as int;
    || n == 0x20
    || 0x09 <= n <= 0x0D
    || 0x1C <= n <= 0x1F
    || n == 0x85 || n == 0xA0 || n == 0x1680
    || 0x2000 <= n <= 0x200A
    || n == 0x2028 || n == 0x2029 || n == 0x202F || n == 0x205F || n == 0x3000
  }

  /** All parts laid end to end. */
  function Concat(parts: seq<string>): string {
    if |parts| == 0 then "" else parts[0] + Concat(parts[1..])
  }

  /** Python's `sep.join(parts)`. */
  function Join(parts: seq<string>, sep: string): string {
    if |parts| == 0 then ""
    else if |parts| == 1 then parts[0]
    else parts[0] + sep + Join(parts[1..], sep)
  }

  /** Python's `s.split(sep)` for a one-character separator: never empty, and no part
      holds the separator (`"".split(",") == [""]`, `"a,,b".split(",") == ["a", "", "b"]`). */
  function Split(s: string, sep: char): (parts: seq<string>)
    ensures |parts| >= 1
    ensures forall i :: 0 <= i < |parts| ==> sep !in parts[i]
  {
    if |s| == 0 then [""]
    else
      var rest := Split(s[1..], sep);
      if s[0] == sep then [""] + rest
      else [[s[0]] + rest[0]] + rest[1..]
  }

  lemma {:induction false} SplitPrefix(p: string, tail: string, sep: char)
    requires sep !in p
    ensures var t := Split(tail, sep); Split(p + tail, sep) == [p + t[0]] + t[1..]
  {
    if |p| == 0 {
      var t := Split(tail, sep);
      assert p + tail == tail;
      assert p + t[0] == t[0];
      assert t == [t[0]] + t[1..];
    } else {
      SplitPrefix(p[1..], tail, sep);
      assert (p + tail)[1..] == p[1..] + tail;
      var t := Split(tail, sep);
      assert [p[0]] + (p[1..] + t[0]) == p + t[0];
    }
  }

  /** A string without the separator, followed by one separator, splits into itself and "". */
  lemma SplitTrailingSeparator(p: string, sep: char)
    requires sep !in p
    ensures Split(p + [sep], sep) == [p, ""]
  {
    SplitPrefix(p, [sep], sep);
    assert Split([sep], sep) == [""] + Split([sep][1..], sep);
    assert p + "" == p;
  }

  /** A string without the separator splits into itself. */
  lemma SplitWithoutSeparator(p: string, sep: char)
    requires sep !in p
    ensures Split(p, sep) == [p]
  {
    SplitPrefix(p, "", sep);
    assert p + "" == p;
  }

  /** Splitting undoes joining, as long as no part holds the separator. */
  lemma {:induction false} SplitOfJoin(parts: seq<string>, sep: char)
    requires |parts| >= 1
    requires forall i :: 0 <= i < |parts| ==> sep !in parts[i]
    ensures Split(Join(parts, [sep]), sep) == parts
  {
    if |parts| == 1 {
      SplitWithoutSeparator(parts[0], sep);
    } else {
      SplitOfJoin(parts[1..], sep);
      var rest := Join(parts[1..], [sep]);
      assert Join(parts, [sep]) == parts[0] + ([sep] + rest);
      assert ([sep] + rest)[1..] == rest;
      var t := Split([sep] + rest, sep);
      assert t == [""] + parts[1..];
      SplitPrefix(parts[0], [sep] + rest, sep);
      assert parts[0] + t[0] == parts[0];
      assert parts == [parts[0]] + parts[1..];
    }
  }

  /** Joining undoes splitting, for every string. */
  lemma {:induction false} JoinOfSplit(s: string, sep: char)
    ensures Join(Split(s, sep), [sep]) == s
  {
    if |s| > 0 {
      var rest := Split(s[1..], sep);
      JoinOfSplit(s[1..], sep);
      if s[0] == sep {
        assert Split(s, sep) == [""] + rest;
        assert ([""] + rest)[1..] == rest;
        assert s == "" + [sep] + s[1..];
      } else {
        var parts := [[s[0]] + rest[0]] + rest[1..];
        assert Split(s, sep) == parts;
        if |rest| == 1 {
          assert s == [s[0]] + s[1..];
        } else {
          assert parts[1..] == rest[1..];
          assert Join(rest, [sep]) == rest[0] + [sep] + Join(rest[1..], [sep]);
          assert s == [s[0]] + s[1..];
        }
      }
    }
  }

  /** A join is as long as its parts plus one separator between each neighbouring pair. */
  lemma {:induction false} JoinLength(parts: seq<string>, sep: string)
    requires |parts| >= 1
    ensures |Join(parts, sep)| == |Concat(parts)| + (|parts| - 1) * |sep|
  {
    if |parts| > 1 {
      JoinLength(parts[1..], sep);
    }
  }

  /** A join starts with its first part's first character. */
  lemma JoinStart(parts: seq<string>, sep: string)
    requires |parts| >= 1 && |parts[0]| > 0
    ensures var j := Join(parts, sep); |j| > 0 && j[0] == parts[0][0]
  {
  }

  /** A join ends with its last part's last character. */
  lemma {:induction false} JoinEnd(parts: seq<string>, sep: string)
    requires |parts| >= 1 && |parts[|parts| - 1]| > 0
    ensures var j := Join(parts, sep);
      |j| > 0 && j[|j| - 1] == parts[|parts| - 1][|parts[|parts| - 1]| - 1]
  {
    if |parts| > 1 {
      JoinEnd(parts[1..], sep);
    }
  }

  /** Drops leading whitespace. */
  function TrimStart(s: string): (r: string)
    ensures |r| <= |s| && r == s[|s| - |r|..]
    ensures forall i :: 0 <= i < |s| - |r| ==> IsSpace(s[i])
    ensures |r| > 0 ==> !IsSpace(r[0])
  {
    if |s| > 0 && IsSpace(s[0]) then TrimStart(s[1..]) else s
  }

  /** Drops trailing whitespace. */
  function TrimEnd(s: string): (r: string)
    ensures |r| <= |s| && r == s[..|r|]
    ensures forall i :: |r| <= i < |s| ==> IsSpace(s[i])
    ensures |r| > 0 ==> !IsSpace(r[|r| - 1])
  {
    if |s| > 0 && IsSpace(s[|s| - 1]) then TrimEnd(s[..|s| - 1]) else s
  }

  /** Python's `s.strip()`: the longest infix that neither starts nor ends with whitespace,
      found by dropping only whitespace from the two ends. */
  function Strip(s: string): (r: string)
    ensures |r| == 0 || (!IsSpace(r[0]) && !IsSpace(r[|r| - 1]))
    ensures |r| <= |s|
    ensures (|s| == 0 || (!IsSpace(s[0]) && !IsSpace(s[|s| - 1]))) ==> r == s
    ensures (forall i :: 0 <= i < |s| ==> IsSpace(s[i])) ==> r == ""
  {
    TrimEnd(TrimStart(s))
  }

  /** Every character is whitespace. */
  predicate AllSpace(s: string) {
    forall i :: 0 <= i < |s| ==> IsSpace(s[i])
  }

  lemma AllSpaceConcat(a: string, b: string)
    requires AllSpace(a) && AllSpace(b)
    ensures AllSpace(a + b)
  {
    forall i | 0 <= i < |a + b| ensures IsSpace((a + b)[i]) {
      if i >= |a| { assert (a + b)[i] == b[i - |a|]; }
    }
  }

  /** Whitespace before a string that does not start with whitespace is all `TrimStart` drops. */
  lemma {:induction false} TrimStartPadded(p: string, s: string)
    requires AllSpace(p)
    requires |s| == 0 || !IsSpace(s[0])
    ensures TrimStart(p + s) == s
  {
    if |p| > 0 {
      assert (p + s)[1..] == p[1..] + s;
      assert AllSpace(p[1..]) by {
        forall i | 0 <= i < |p| - 1 ensures IsSpace(p[1..][i]) { assert p[1..][i] == p[i + 1]; }
      }
      TrimStartPadded(p[1..], s);
    }
  }

  /** Whitespace after a string that does not end with whitespace is all `TrimEnd` drops. */
  lemma {:induction false} TrimEndPadded(s: string, q: string)
    requires AllSpace(q)
    requires |s| == 0 || !IsSpace(s[|s| - 1])
    ensures TrimEnd(s + q) == s
  {
    if |q| > 0 {
      assert (s + q)[..|s + q| - 1] == s + q[..|q| - 1];
      assert (s + q)[|s + q| - 1] == q[|q| - 1];
      var q' := q[..|q| - 1];
      assert AllSpace(q') by {
        forall i | 0 <= i < |q'| ensures IsSpace(q'[i]) { assert q'[i] == q[i]; }
      }
      TrimEndPadded(s, q');
    }
  }

  /** A sequence is its prefix followed by the rest. */
  lemma SplitAt<T>(s: seq<T>, n: nat)
    requires n <= |s|
    ensures s == s[..n] + s[n..]
  {
  }

  /** A string is the whitespace `TrimStart` drops followed by what it keeps. */
  lemma TrimStartSplits(s: string) returns (a: string)
    ensures AllSpace(a) && s == a + TrimStart(s)
  {
    var n := |s| - |TrimStart(s)|;
    a := s[..n];
    SplitAt(s, n);
    forall i | 0 <= i < |a| ensures IsSpace(a[i]) {
      assert a[i] == s[i];
    }
  }

  /** A string is what `TrimEnd` keeps followed by the whitespace it drops. */
  lemma TrimEndSplits(t: string) returns (b: string)
    ensures AllSpace(b) && t == TrimEnd(t) + b
  {
    var n := |TrimEnd(t)|;
    b := t[n..];
    SplitAt(t, n);
    forall i | 0 <= i < |b| ensures IsSpace(b[i]) {
      assert b[i] == t[n + i];
    }
  }

  /** A string is its stripped core with whitespace before and after it. */
  lemma StripSplits(s: string) returns (a: string, b: string)
    ensures AllSpace(a) && AllSpace(b) && s == a + Strip(s) + b
  {
    a := TrimStartSplits(s);
    b := TrimEndSplits(TrimStart(s));
    Associate(a, Strip(s), b);
  }

  lemma Associate<T>(a: seq<T>, c: seq<T>, b: seq<T>)
    ensures a + (c + b) == a + c + b
  {
  }

  /** The same five pieces laid end to end, grouped around the middle one. */
  lemma Regroup<T>(p: seq<T>, a: seq<T>, c: seq<T>, b: seq<T>, q: seq<T>)
    ensures p + (a + c + b) + q == (p + a) + (c + (b + q))
    ensures c == [] ==> p + (a + c + b) + q == (p + a) + (b + q)
  {
  }

  /** Extra whitespace around a string does not change what `strip()` leaves of it. */
  lemma StripIgnoresPadding(p: string, s: string, q: string)
    requires AllSpace(p) && AllSpace(q)
    ensures Strip(p + s + q) == Strip(s)
  {
    var a, b := StripSplits(s);
    var core := Strip(s);
    AllSpaceConcat(p, a);
    AllSpaceConcat(b, q);
    Regroup(p, a, core, b, q);
    if |core| == 0 {
      AllSpaceConcat(p + a, b + q);
    } else {
      TrimStartPadded(p + a, core + (b + q));
      TrimEndPadded(core, b + q);
    }
  }

  /** Python's `str.lower()` on one character, for the ASCII letters. */
  function LowerChar(c: char): char {
    if 'A' <= c <= 'Z' then (c as int + 32) as char else c
  }

  /** Python's `str.lower()`, letter by letter. */
  function Lower(s: string): (r: string)
    ensures |r| == |s|
    ensures forall i :: 0 <= i < |s| ==> r[i] == LowerChar(s[i])
  {
    seq(|s|, i requires 0 <= i < |s| => LowerChar(s[i]))
  }

  lemma LowerConcat(a: string, b: string)
    ensures Lower(a + b) == Lower(a) + Lower(b)
  {
  }

  /** Lower-casing a string with no upper-case letter changes nothing. */
  lemma LowerUnchanged(s: string)
    requires forall i :: 0 <= i < |s| ==> !('A' <= s[i] <= 'Z')
    ensures Lower(s) == s
  {
  }
}
