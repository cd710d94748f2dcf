/**
 The Python string builtins the chatbot relies on: `str.strip`, `str.lower`,
 `str.replace(pat, "")`, `str.split(sep)`, `sep.join(parts)` and the decimal
 rendering of an `int` inside an f-string. Strings are sequences of Unicode
 scalar values; whitespace and case are modelled for the Latin-1 and ASCII
 ranges respectively.
 */
module Text {

  /** Whitespace as Python's `str.isspace` sees it, within the Latin-1 range. */
  predicate IsSpace(c: char) {
    ('\t' <= c <= '\r') || ('\U{1C}' <= c <= ' ') || c == '\U{85}' || c == '\U{A0}'
  }

  predicate AllSpace(s: string) {
    forall i :: 0 <= i < |s| ==> IsSpace(s[i])
  }

  /** No whitespace at either end: the shape of every `str.strip()` result. */
  predicate IsStripped(s: string) {
    |s| == 0 || (!IsSpace(s[0]) && !IsSpace(s[|s| - 1]))
  }

  lemma AllSpaceConcat(a: string, b: string)
    requires AllSpace(a) && AllSpace(b)
    ensures AllSpace(a + b)
  {
    forall i | 0 <= i < |a + b|
      ensures IsSpace((a + b)[i])
    {
      if i < |a| { assert (a + b)[i] == a[i]; }
      else { assert (a + b)[i] == b[i - |a|]; }
    }
  }

  function TrimStart(s: string): (r: string)
    ensures |r| <= |s|
    ensures |r| == 0 || !IsSpace(r[0])
  {
    if |s| > 0 && IsSpace(s[0]) then TrimStart(s[1..]) else s
  }

  function TrimEnd(s: string): (r: string)
    ensures |r| <= |s|
    ensures |r| == 0 || !IsSpace(r[|r| - 1])
  {
    if |s| > 0 && IsSpace(s[|s| - 1]) then TrimEnd(s[..|s| - 1]) else s
  }

  /** `TrimStart` keeps a suffix and drops only whitespace. */
  lemma {:induction false} TrimStartSuffix(s: string)
    ensures TrimStart(s) == s[|s| - |TrimStart(s)|..]
    ensures AllSpace(s[..|s| - |TrimStart(s)|])
    decreases |s|
  {
    if |s| > 0 && IsSpace(s[0]) {
      TrimStartSuffix(s[1..]);
      var k := |s| - |TrimStart(s)|;
      assert s[1..][..k - 1] == s[1..k];
      assert s[1..][k - 1..] == s[k..];
    }
  }

  /** `TrimEnd` keeps a prefix and drops only whitespace. */
  lemma {:induction false} TrimEndPrefix(s: string)
    ensures TrimEnd(s) == s[..|TrimEnd(s)|]
    ensures AllSpace(s[|TrimEnd(s)|..])
    decreases |s|
  {
    if |s| > 0 && IsSpace(s[|s| - 1]) {
      TrimEndPrefix(s[..|s| - 1]);
      var k := |TrimEnd(s)|;
      assert s[..|s| - 1][..k] == s[..k];
      assert s[..|s| - 1][k..] == s[k..|s| - 1];
    }
  }

  /** `s.strip()`: drops leading and trailing whitespace. */
  function Strip(s: string): (r: string)
    ensures IsStripped(r)
    ensures |r| <= |s|
  {
    var t := TrimStart(s);
    TrimEndPrefix(t);
    TrimEnd(t)
  }

  /** Stripping leaves nothing exactly when the string is all whitespace. */
  lemma StripEmptyIffSpace(s: string)
    ensures Strip(s) == [] <==> AllSpace(s)
  {
    var t := TrimStart(s);
    TrimStartSuffix(s);
    TrimEndPrefix(t);
    assert s == s[..|s| - |t|] + t;
    if Strip(s) == [] {
      assert t[0..] == t;
      AllSpaceConcat(s[..|s| - |t|], t);
    }
  }

  /** What `Strip` removed is whitespace, and what it kept is one contiguous run of `s`. */
  lemma StripInfix(s: string) returns (lead: nat)
    ensures lead + |Strip(s)| <= |s|
    ensures Strip(s) == s[lead..lead + |Strip(s)|]
    ensures AllSpace(s[..lead]) && AllSpace(s[lead + |Strip(s)|..])
  {
    var t := TrimStart(s);
    var r := TrimEnd(t);
    TrimStartSuffix(s);
    TrimEndPrefix(t);
    lead := |s| - |t|;
    assert t == s[lead..];
    assert r == t[..|r|];
    assert t[|r|..] == s[lead + |r|..];
  }

  lemma {:induction false} TrimStartSkips(a: string, x: string)
    requires AllSpace(a)
    requires |x| == 0 || !IsSpace(x[0])
    ensures TrimStart(a + x) == x
    decreases |a|
  {
    if |a| == 0 {
      assert a + x == x;
    } else {
      assert (a + x)[1..] == a[1..] + x;
      TrimStartSkips(a[1..], x);
    }
  }

  lemma {:induction false} TrimEndSkips(x: string, b: string)
    requires AllSpace(b)
    requires |x| == 0 || !IsSpace(x[|x| - 1])
    ensures TrimEnd(x + b) == x
    decreases |b|
  {
    if |b| == 0 {
      assert x + b == x;
    } else {
      assert (x + b)[..|x + b| - 1] == x + b[..|b| - 1];
      TrimEndSkips(x, b[..|b| - 1]);
    }
  }

  /** `Strip` is characterised by its result: a stripped core between two runs of whitespace. */
  lemma StripUnique(a: string, t: string, b: string)
    requires AllSpace(a) && AllSpace(b) && IsStripped(t)
    ensures Strip(a + t + b) == t
  {
    if |t| == 0 {
      AllSpaceConcat(a, b);
      assert a + t + b == a + b;
      StripEmptyIffSpace(a + b);
    } else {
      assert a + t + b == a + (t + b);
      TrimStartSkips(a, t + b);
      TrimEndSkips(t, b);
    }
  }

  lemma {:induction false} TrimStartSkipsSpace(w: string, x: string)
    requires AllSpace(w)
    ensures TrimStart(w + x) == TrimStart(x)
    decreases |w|
  {
    if |w| == 0 {
      assert w + x == x;
    } else {
      assert (w + x)[1..] == w[1..] + x;
      TrimStartSkipsSpace(w[1..], x);
    }
  }

  /** Whitespace in front of a string never survives stripping. */
  lemma StripSkipsLeadingSpace(w: string, x: string)
    requires AllSpace(w)
    ensures Strip(w + x) == Strip(x)
  {
    TrimStartSkipsSpace(w, x);
  }

  lemma {:induction false} StripIdempotent(s: string)
    ensures Strip(Strip(s)) == Strip(s)
  {
    StripUnique([], Strip(s), []);
    assert [] + Strip(s) + [] == Strip(s);
  }

  /** ASCII case folding of one character, as `str.lower` does for 'A'..'Z'. */
  function LowerChar(c: char): char {
    if 'A' <= c <= 'Z' then (c as int - 'A' as int + 'a' as int) as char else c
  }

  /** `s.lower()`, restricted to ASCII letters. */
  function Lower(s: string): (r: string)
    ensures |r| == |s|
    ensures forall i :: 0 <= i < |s| ==> r[i] == LowerChar(s[i])
    ensures forall i :: 0 <= i < |r| ==> !('A' <= r[i] <= 'Z')
  {
    if |s| == 0 then [] else [LowerChar(s[0])] + Lower(s[1..])
  }

  /** Text without ASCII capitals is unchanged by lower-casing. */
  lemma LowerWithoutCapitals(s: string)
    requires forall c :: c in s ==> !('A' <= c <= 'Z')
    ensures Lower(s) == s
  {
    forall i | 0 <= i < |s|
      ensures Lower(s)[i] == s[i]
    {
      assert s[i] in s;
    }
  }

  /** `pat` occurs in `s` starting at index `i`. */
  predicate OccursAt(s: string, pat: string, i: int) {
    0 <= i && i + |pat| <= |s| && s[i..i + |pat|] == pat
  }

  /** `s.replace(pat, "")`: every occurrence of `pat`, found scanning left to right without overlap, is deleted. */
  function RemoveAll(s: string, pat: string): (r: string)
    requires |pat| > 0
    ensures |r| <= |s|
    decreases |s|
  {
    if |s| < |pat| then s
    else if s[..|pat|] == pat then RemoveAll(s[|pat|..], pat)
    else [s[0]] + RemoveAll(s[1..], pat)
  }

  /** `s.split(sep)`: the pieces between occurrences of `sep`, found scanning left to right without overlap. */
  function Split(s: string, sep: string): (parts: seq<string>)
    requires |sep| > 0
    ensures |parts| >= 1
    decreases |s|
  {
    if |s| < |sep| then [s]
    else if s[..|sep|] == sep then [[]] + Split(s[|sep|..], sep)
    else
      var rest := Split(s[1..], sep);
      [[s[0]] + rest[0]] + rest[1..]
  }

  /** `sep.join(parts)`. */
  function Join(parts: seq<string>, sep: string): string
    decreases |parts|
  {
    if |parts| == 0 then []
    else if |parts| == 1 then parts[0]
    else parts[0] + sep + Join(parts[1..], sep)
  }

  /** Joining onto a first piece that gained one character in front. */
  lemma JoinExtendsHead(c: char, parts: seq<string>, sep: string)
    requires |parts| >= 1
    ensures Join([[c] + parts[0]] + parts[1..], sep) == [c] + Join(parts, sep)
  {
    var q := [[c] + parts[0]] + parts[1..];
    assert q[1..] == parts[1..];
  }

  /** Splitting and joining with the same separator gives the string back. */
  lemma {:induction false} SplitJoin(s: string, sep: string)
    requires |sep| > 0
    ensures Join(Split(s, sep), sep) == s
    decreases |s|
  {
    if |s| < |sep| {
    } else if s[..|sep|] == sep {
      var rest := Split(s[|sep|..], sep);
      SplitJoin(s[|sep|..], sep);
      assert ([[]] + rest)[1..] == rest;
      assert Join([[]] + rest, sep) == [] + sep + Join(rest, sep);
      assert [] + sep == sep;
      assert s == s[..|sep|] + s[|sep|..];
    } else {
      var rest := Split(s[1..], sep);
      SplitJoin(s[1..], sep);
      JoinExtendsHead(s[0], rest, sep);
      assert s == [s[0]] + s[1..];
    }
  }

  /** `s.replace(pat, "")` is `"".join(s.split(pat))`. */
  lemma {:induction false} RemoveAllIsJoinOfSplit(s: string, pat: string)
    requires |pat| > 0
    ensures RemoveAll(s, pat) == Join(Split(s, pat), [])
    decreases |s|
  {
    if |s| < |pat| {
    } else if s[..|pat|] == pat {
      var rest := Split(s[|pat|..], pat);
      RemoveAllIsJoinOfSplit(s[|pat|..], pat);
      assert ([[]] + rest)[1..] == rest;
    } else {
      var rest := Split(s[1..], pat);
      RemoveAllIsJoinOfSplit(s[1..], pat);
      JoinExtendsHead(s[0], rest, []);
    }
  }

  /** A string without any occurrence of `pat` is left alone by `RemoveAll`. */
  lemma {:induction false} RemoveAllWithoutOccurrence(s: string, pat: string)
    requires |pat| > 0
    requires forall i :: !OccursAt(s, pat, i)
    ensures RemoveAll(s, pat) == s
    decreases |s|
  {
    if |s| < |pat| {
    } else {
      assert !OccursAt(s, pat, 0);
      forall i
        ensures !OccursAt(s[1..], pat, i)
      {
        if OccursAt(s[1..], pat, i) {
          assert s[1..][i..i + |pat|] == s[i + 1..i + 1 + |pat|];
          assert OccursAt(s, pat, i + 1);
        }
      }
      RemoveAllWithoutOccurrence(s[1..], pat);
      assert s == [s[0]] + s[1..];
    }
  }

  function CountChar(s: string, c: char): nat
    decreases |s|
  {
    if |s| == 0 then 0 else (if s[0] == c then 1 else 0) + CountChar(s[1..], c)
  }

  /** Splitting on one character yields one piece more than it has occurrences, none containing it. */
  lemma {:induction false} SplitOnChar(s: string, c: char)
    ensures |Split(s, [c])| == CountChar(s, c) + 1
    ensures forall k :: 0 <= k < |Split(s, [c])| ==> c !in Split(s, [c])[k]
    decreases |s|
  {
    if |s| < 1 {
    } else if s[..1] == [c] {
      assert s[0] == c;
      SplitOnChar(s[1..], c);
      var rest := Split(s[1..], [c]);
      assert Split(s, [c]) == [[]] + rest;
      forall k | 0 <= k < |Split(s, [c])|
        ensures c !in Split(s, [c])[k]
      {
        if k > 0 { assert Split(s, [c])[k] == rest[k - 1]; }
      }
    } else {
      assert s[0] != c;
      SplitOnChar(s[1..], c);
      var rest := Split(s[1..], [c]);
      assert Split(s, [c]) == [[s[0]] + rest[0]] + rest[1..];
      forall k | 0 <= k < |Split(s, [c])|
        ensures c !in Split(s, [c])[k]
      {
        if k > 0 { assert Split(s, [c])[k] == rest[k]; }
      }
    }
  }

  /** A piece free of the separator character splits to itself. */
  lemma {:induction false} SplitWithoutSeparator(x: string, c: char)
    requires c !in x
    ensures Split(x, [c]) == [x]
    decreases |x|
  {
    if |x| >= 1 {
      assert x[..1] != [c] by { assert x[..1][0] == x[0]; assert x[0] in x; }
      SplitWithoutSeparator(x[1..], c);
      assert [x[0]] + x[1..] == x;
    }
  }

  /** A separator-free piece followed by the separator splits off as the first piece. */
  lemma {:induction false} SplitAfterPiece(x: string, c: char, rest: string)
    requires c !in x
    ensures Split(x + [c] + rest, [c]) == [x] + Split(rest, [c])
    decreases |x|
  {
    var s := x + [c] + rest;
    if |x| == 0 {
      assert s == [c] + rest;
      assert s[..1] == [c];
      assert s[1..] == rest;
    } else {
      assert s[0] == x[0] && x[0] in x;
      assert s[..1] != [c] by { assert s[..1][0] == s[0]; }
      assert s[1..] == x[1..] + [c] + rest;
      SplitAfterPiece(x[1..], c, rest);
      var r := Split(s[1..], [c]);
      assert [[s[0]] + r[0]] + r[1..] == [x] + Split(rest, [c]) by {
        assert r[0] == x[1..];
        assert [s[0]] + x[1..] == x;
        assert r[1..] == Split(rest, [c]);
      }
    }
  }

  /** Joining separator-free pieces with one character and splitting on it gives the pieces back. */
  lemma {:induction false} JoinSplit(parts: seq<string>, c: char)
    requires |parts| >= 1
    requires forall k :: 0 <= k < |parts| ==> c !in parts[k]
    ensures Split(Join(parts, [c]), [c]) == parts
    decreases |parts|
  {
    if |parts| == 1 {
      SplitWithoutSeparator(parts[0], c);
    } else {
      JoinSplit(parts[1..], c);
      SplitAfterPiece(parts[0], c, Join(parts[1..], [c]));
      assert [parts[0]] + parts[1..] == parts;
    }
  }

  predicate IsDigit(c: char) {
    '0' <= c <= '9'
  }

  function DigitChar(d: nat): (c: char)
    requires d < 10
    ensures IsDigit(c)
  {
    ('0' as int + d) as char
  }

  /** Decimal rendering of a natural number, as an f-string writes an `int`. */
  function NatToString(n: nat): (r: string)
    ensures |r| >= 1
    ensures forall i :: 0 <= i < |r| ==> IsDigit(r[i])
    ensures r[0] == '0' ==> n == 0
    decreases n
  {
    if n < 10 then [DigitChar(n)] else NatToString(n / 10) + [DigitChar(n % 10)]
  }

  /** The value of a string of decimal digits. */
  function DigitsValue(s: string): nat
    requires forall i :: 0 <= i < |s| ==> IsDigit(s[i])
    decreases |s|
  {
    if |s| == 0 then 0
    else
      var last := s[|s| - 1];
      assert IsDigit(last);
      10 * DigitsValue(s[..|s| - 1]) + (last as int - '0' as int)
  }

  /** Reading back a rendered number gives the number. */
  lemma {:induction false} NatToStringRoundTrip(n: nat)
    ensures DigitsValue(NatToString(n)) == n
    decreases n
  {
    if n >= 10 {
      var r := NatToString(n);
      NatToStringRoundTrip(n / 10);
      assert r[..|r| - 1] == NatToString(n / 10);
    }
  }
}
