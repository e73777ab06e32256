/** Alphabet.java: a validated bijection between the characters of a string
    and the indices 0 .. size-1. */
module Alphabets {
  import opened Errors

  /** The characters an alphabet may contain, in the order the source lists
      them: "A".."Z", then "0".."9", then "a".."z", "_" and ".". */
  const Permitted: string := Upper + Digits + Lower
  const Upper: string := CharRange('A', 26)
  const Digits: string := CharRange('0', 10)
  const Lower: string := CharRange('a', 26) + "_."

  /** The n consecutive characters starting at lo. */
  function CharRange(lo: char, n: nat): (r: string)
    requires lo as int + n <= 0xD800
    ensures |r| == n
    ensures forall i | 0 <= i < n :: r[i] as int == lo as int + i
  {
    seq(n, i requires 0 <= i < n => (lo as int + i) as char)
  }

  /** The same set of characters, stated by ranges. */
  predicate IsPermitted(c: char) {
    ('A' <= c <= 'Z') || ('0' <= c <= '9') || ('a' <= c <= 'z') || c == '_' || c == '.'
  }

  /** No character occurs twice in `s`. */
  predicate Distinct(s: string) {
    forall i, j | 0 <= i < j < |s| :: s[i] != s[j]
  }

  /** Java's String.indexOf(char): the first position of `c` in `s`, or -1. */
  function IndexOf(s: string, c: char): (r: int)
    ensures -1 <= r < |s|
    ensures r == -1 <==> c !in s
    ensures 0 <= r ==> s[r] == c && c !in s[..r]
  {
    if |s| == 0 then -1
    else if s[0] == c then 0
    else
      var k := IndexOf(s[1..], c);
      assert s[1..][..k + 1] == s[1..k + 2] && s[..k + 2] == [s[0]] + s[1..k + 2] by {
        if 0 <= k { assert s[1..][..k + 1] == s[1..k + 2]; }
      }
      if k < 0 then -1 else k + 1
  }

  datatype Alphabet = Alphabet(chars: string) {

    /** What a successful construction guarantees (Alphabet.java:18-33). */
    predicate Valid() {
      (forall i | 0 <= i < |chars| :: IsPermitted(chars[i])) && Distinct(chars)
    }

    /** Alphabet.size: the length of the construction string. */
    function Size(): nat {
      |chars|
    }

    /** Alphabet.toChar. The source's guard admits index == size(); that index
        then fails inside String.charAt, with a Java index exception rather
        than an EnigmaException. */
    function ToChar(index: int): (r: Result<char>)
      ensures r.Ok? <==> 0 <= index < Size()
      ensures r.Ok? ==> r.value == chars[index]
      ensures r.Err? && index == Size() ==> r.error == IndexOutOfRange
      ensures r.Err? && index != Size() ==> r.error == EnigmaFailure
    {
      if 0 <= index <= Size() then
        if index < |chars| then Ok(chars[index]) else Err(IndexOutOfRange)
      else
        Err(EnigmaFailure)
    }

    /** Alphabet.toInt: the position of `ch`, or -1 when `ch` is absent. The
        source's guard `indexOf(ch) <= 0 && indexOf(ch) >= size()` can never
        hold, so it never throws. */
    function ToInt(ch: char): (r: int)
      ensures r == -1 <==> ch !in chars
      ensures r != -1 ==> 0 <= r < Size() && chars[r] == ch
    {
      var k := IndexOf(chars, ch);
      if k <= 0 && k >= Size() then
        assert false; -1
      else
        k
    }

    /** Alphabet.contains: a linear search with early return. */
    method Contains(ch: char) returns (b: bool)
      ensures b <==> ch in chars
    {
      for i := 0 to |chars|
        invariant ch !in chars[..i]
      {
        if chars[i] == ch {
          return true;
        }
      }
      assert chars[..|chars|] == chars;
      return false;
    }
  }

  /** Alphabet(): the default alphabet of the 26 upper-case letters. */
  const Default: Alphabet := Alphabet(Upper)

  /** The Alphabet constructor: every character must be permitted and none
      may repeat. The first loop rejects a character outside the permitted
      set, the second fills a set and rejects the first repeated character. */
  method NewAlphabet(chars: string) returns (r: Result<Alphabet>)
    ensures r.Ok? <==> (forall i | 0 <= i < |chars| :: IsPermitted(chars[i])) && Distinct(chars)
    ensures r.Ok? ==> r.value.chars == chars && r.value.Valid() && r.value.Size() == |chars|
    ensures r.Err? ==> r.error == EnigmaFailure
  {
    for i := 0 to |chars|
      invariant forall k | 0 <= k < i :: IsPermitted(chars[k])
    {
      PermittedIndex(chars[i]);
      if IndexOf(Permitted, chars[i]) == -1 {
        return Err(EnigmaFailure);
      }
    }
    var seen: set<char> := {};
    for i := 0 to |chars|
      invariant seen == set k | 0 <= k < i :: chars[k]
      invariant Distinct(chars[..i])
    {
      if chars[i] in seen {
        return Err(EnigmaFailure);
      }
      seen := seen + {chars[i]};
    }
    assert chars[..|chars|] == chars;
    return Ok(Alphabet(chars));
  }

  /** Every character of the permitted string is a letter, a digit, `_` or `.`. */
  lemma PermittedSound(c: char)
    requires c in Permitted
    ensures IsPermitted(c)
  {
    var i :| 0 <= i < |Permitted| && Permitted[i] == c;
    if i < 26 {
      assert Permitted[i] == Upper[i];
    } else if i < 36 {
      assert Permitted[i] == Digits[i - 26];
    } else if i < 62 {
      assert Permitted[i] == Lower[i - 36] == CharRange('a', 26)[i - 36];
    } else {
      assert Permitted[i] == Lower[i - 36] == "_."[i - 62];
    }
  }

  /** Every letter, digit, `_` and `.` is in the permitted string. */
  lemma PermittedComplete(c: char)
    requires IsPermitted(c)
    ensures c in Permitted
  {
    if 'A' <= c <= 'Z' {
      UpperPermitted(c);
    } else if '0' <= c <= '9' {
      DigitPermitted(c);
    } else {
      LowerPermitted(c);
    }
  }

  lemma UpperPermitted(c: char)
    requires 'A' <= c <= 'Z'
    ensures c in Permitted
  {
    assert Upper[c as int - 'A' as int] == c;
    assert Permitted[c as int - 'A' as int] == c;
  }

  lemma DigitPermitted(c: char)
    requires '0' <= c <= '9'
    ensures c in Permitted
  {
    assert Digits[c as int - '0' as int] == c;
    assert Permitted[26 + c as int - '0' as int] == c;
  }

  lemma LowerPermitted(c: char)
    requires ('a' <= c <= 'z') || c == '_' || c == '.'
    ensures c in Permitted
  {
    var k := if c == '_' then 26 else if c == '.' then 27 else c as int - 'a' as int;
    assert Lower[k] == c;
    assert Permitted[36 + k] == c;
  }

  /** The permitted string is exactly the letters, digits, `_` and `.`. */
  lemma PermittedByRange(c: char)
    ensures c in Permitted <==> IsPermitted(c)
  {
    if c in Permitted {
      PermittedSound(c);
    }
    if IsPermitted(c) {
      PermittedComplete(c);
    }
  }

  /** The first loop's test `validAlphabet.indexOf(c) == -1` rejects exactly the characters outside the permitted set. */
  lemma PermittedIndex(c: char)
    ensures IndexOf(Permitted, c) == -1 <==> !IsPermitted(c)
  {
    PermittedByRange(c);
  }

  /** toInt inverts toChar on every index of a duplicate-free alphabet. */
  lemma ToIntToChar(a: Alphabet, i: int)
    requires Distinct(a.chars)
    requires 0 <= i < a.Size()
    ensures a.ToChar(i).Ok? && a.ToInt(a.ToChar(i).value) == i
  {
  }

  /** toChar inverts toInt on every character of the alphabet. */
  lemma ToCharToInt(a: Alphabet, c: char)
    requires c in a.chars
    ensures a.ToChar(a.ToInt(c)) == Ok(c)
  {
  }

  /** Without repeated characters, toInt tells characters apart. */
  lemma ToIntInjective(a: Alphabet, c: char, d: char)
    requires c in a.chars && d in a.chars && a.ToInt(c) == a.ToInt(d)
    ensures c == d
  {
  }

  /** The default alphabet is valid and has 26 characters. */
  lemma DefaultValid()
    ensures Default.Valid() && Default.Size() == 26
  {
    assert forall i | 0 <= i < 26 :: Upper[i] as int == 'A' as int + i;
  }

  /** The letter ranges spelled out. */
  lemma RangesSpelled()
    ensures Upper == "ABCDEFGHIJKLMNOPQRSTUVWXYZ"
    ensures Digits == "0123456789"
    ensures Lower == "abcdefghijklmnopqrstuvwxyz_."
  {
  }
}
