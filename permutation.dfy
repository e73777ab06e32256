/** Permutation.java: a permutation of the indices of an alphabet, written
    as cycles of characters. Characters in no cycle are fixed points. */
module Permutations {
  import opened Errors
  import opened Alphabets

  // ---------------------------------------------------------------------
  // wrap

  /** Java's `%` on int: the remainder has the sign of the dividend. */
  function JavaRem(p: int, n: int): (r: int)
    requires n > 0
    ensures -n < r < n
    ensures (p - r) % n == 0
    ensures p >= 0 ==> r >= 0
    ensures p <= 0 ==> r <= 0
  {
    if p >= 0 then
      ModUnique(p - p % n, n, p / n, 0);
      p % n
    else
      ModUnique(p + (-p) % n, n, -((-p) / n), 0);
      -((-p) % n)
  }

  /** Permutation.wrap over an alphabet of size n: Java's remainder, moved
      into [0, n) when it is negative. */
  function Wrap(n: int, p: int): (r: int)
    requires n > 0
    ensures 0 <= r < n
  {
    var r := JavaRem(p, n);
    if r < 0 then r + n else r
  }

  /** A positive multiple of n is at least n. */
  lemma MulAtLeast(d: int, n: int)
    requires d >= 1 && n > 0
    ensures d * n >= n
  {
    assert d * n == (d - 1) * n + n;
    assert (d - 1) * n >= 0;
  }

  /** Euclidean division has a unique remainder. */
  lemma ModUnique(p: int, n: int, q: int, r: int)
    requires n > 0 && 0 <= r < n && p == q * n + r
    ensures p % n == r
  {
    var q', r' := p / n, p % n;
    assert p == q' * n + r';
    if q' > q {
      assert (q' - q) * n == q' * n - q * n;
      MulAtLeast(q' - q, n);
    } else if q' < q {
      assert (q - q') * n == q * n - q' * n;
      MulAtLeast(q - q', n);
    }
  }

  /** Reducing the first summand first does not change the remainder of a sum. */
  lemma ModShift(n: int, a: int, b: int)
    requires n > 0
    ensures (a % n + b) % n == (a + b) % n
  {
    var q := a / n;
    var r := (a % n + b) % n;
    var q2 := (a % n + b) / n;
    assert a == q * n + a % n;
    assert a % n + b == q2 * n + r;
    assert q * n + q2 * n == (q + q2) * n;
    ModUnique(a + b, n, q + q2, r);
  }

  /** wrap is the floored modulo: it agrees with Dafny's Euclidean `%` for a
      positive modulus, and differs from its argument by a multiple of n. */
  lemma {:induction false} WrapIsFlooredMod(n: int, p: int)
    requires n > 0
    ensures Wrap(n, p) == p % n
    ensures (p - Wrap(n, p)) % n == 0
  {
    if p < 0 {
      var m, q := (-p) % n, (-p) / n;
      assert -p == q * n + m;
      if m == 0 {
        assert p == (-q) * n + 0;
        ModUnique(p, n, -q, 0);
      } else {
        assert p == (-q - 1) * n + (n - m);
        ModUnique(p, n, -q - 1, n - m);
      }
    }
    assert p - p % n == (p / n) * n + 0;
    ModUnique(p - p % n, n, p / n, 0);
  }

  /** wrap leaves an index of the alphabet unchanged. */
  lemma WrapInRange(n: int, p: int)
    requires 0 <= p < n
    ensures Wrap(n, p) == p
  {
    ModUnique(p, n, 0, p);
  }

  /** Wrapping a summand first does not change the wrap of the sum. */
  lemma {:induction false} WrapShift(n: int, a: int, b: int)
    requires n > 0
    ensures Wrap(n, Wrap(n, a) + b) == Wrap(n, a + b)
  {
    WrapIsFlooredMod(n, a);
    WrapIsFlooredMod(n, Wrap(n, a) + b);
    WrapIsFlooredMod(n, a + b);
    ModShift(n, a, b);
  }

  // ---------------------------------------------------------------------
  // Parsing cycle notation

  /** Java's `\s`: space, tab, line feed, vertical tab, form feed, carriage return. */
  predicate IsWhitespace(c: char) {
    c == ' ' || c == '\t' || c == '\n' || c == '\U{000B}' || c == '\U{000C}' || c == '\r'
  }

  /** `replaceAll("\\s", "")` followed by `replace("(", "")`. */
  function Strip(s: string): (r: string)
    ensures forall i | 0 <= i < |r| :: !IsWhitespace(r[i]) && r[i] != '('
    ensures |r| <= |s|
  {
    if s == [] then []
    else (if IsWhitespace(s[0]) || s[0] == '(' then [] else [s[0]]) + Strip(s[1..])
  }

  /** The pieces joined again with a `)` between neighbours. */
  function Unsplit(ps: seq<string>): string
    requires |ps| >= 1
  {
    if |ps| == 1 then ps[0] else ps[0] + ")" + Unsplit(ps[1..])
  }

  /** The substrings between the `)` separators, including empty ones. */
  function Pieces(s: string): (r: seq<string>)
    ensures |r| >= 1
    ensures forall k | 0 <= k < |r| :: ')' !in r[k]
    ensures Unsplit(r) == s
    decreases |s|
  {
    var i := IndexOf(s, ')');
    if i < 0 then [s]
    else
      var rest := Pieces(s[i + 1..]);
      assert ([s[..i]] + rest)[1..] == rest;
      assert s == s[..i] + ")" + s[i + 1..];
      [s[..i]] + rest
  }

  /** Drops the empty strings at the end of a list of pieces. */
  function DropTrailingEmpty(ps: seq<string>): (r: seq<string>)
    ensures r <= ps
    ensures r == [] || r[|r| - 1] != []
    ensures forall k | |r| <= k < |ps| :: ps[k] == []
  {
    if ps == [] then []
    else if ps[|ps| - 1] == [] then DropTrailingEmpty(ps[..|ps| - 1])
    else ps
  }

  /** Java's `split("\\)")`: the whole string when it has no `)` (so the
      empty string gives one empty piece), otherwise the pieces without the
      trailing empty ones. */
  function Split(s: string): seq<string> {
    if ')' !in s then [s] else DropTrailingEmpty(Pieces(s))
  }

  /** The cycle list the Permutation constructor stores for `cycles`. */
  function ParseCycles(cycles: string): seq<string> {
    Split(Strip(cycles))
  }

  /** A string that can stand between a pair of parentheses. */
  predicate PlainCycle(s: string) {
    forall i | 0 <= i < |s| :: !IsWhitespace(s[i]) && s[i] != '(' && s[i] != ')'
  }

  /** Cycle notation as the configuration reader writes it: " (c1) (c2) ...". */
  function Format(cs: seq<string>): string {
    if cs == [] then "" else " (" + cs[0] + ")" + Format(cs[1..])
  }

  // ---------------------------------------------------------------------
  // Cycles

  /** No character occurs twice across all the cycles together. */
  predicate NoRepeats(cycles: seq<string>) {
    forall k1, i1, k2, i2 |
      0 <= k1 < |cycles| && 0 <= i1 < |cycles[k1]| && 0 <= k2 < |cycles| && 0 <= i2 < |cycles[k2]| &&
      cycles[k1][i1] == cycles[k2][i2]
      :: k1 == k2 && i1 == i2
  }

  /** The first cycle that contains `c` (the outer search loop), or |cycles|. */
  function CycleOf(cycles: seq<string>, c: char): (k: nat)
    ensures k <= |cycles|
    ensures k < |cycles| ==> c in cycles[k]
    ensures forall j | 0 <= j < k :: c !in cycles[j]
  {
    if cycles == [] then 0
    else if c in cycles[0] then 0
    else 1 + CycleOf(cycles[1..], c)
  }

  /** The last position of `c` in `s`, or -1. */
  function LastIndexOf(s: string, c: char): (r: int)
    ensures -1 <= r < |s|
    ensures r == -1 <==> c !in s
    ensures 0 <= r ==> s[r] == c && c !in s[r + 1..]
  {
    if |s| == 0 then -1
    else if s[|s| - 1] == c then |s| - 1
    else
      var k := LastIndexOf(s[..|s| - 1], c);
      assert 0 <= k ==> s[k + 1..] == s[..|s| - 1][k + 1..] + [s[|s| - 1]];
      k
  }

  /** The first cycle holding c is the one the search stops at. */
  lemma CycleAt(cycles: seq<string>, c: char, k: int)
    requires 0 <= k < |cycles| && c in cycles[k]
    requires forall j | 0 <= j < k :: c !in cycles[j]
    ensures CycleOf(cycles, c) == k
  {
  }

  /** The last occurrence of c is the one with no c after it. */
  lemma LastIndexAt(s: string, c: char, i: int)
    requires 0 <= i < |s| && s[i] == c && c !in s[i + 1..]
    ensures LastIndexOf(s, c) == i
  {
    var r := LastIndexOf(s, c);
    assert forall j | i < j < |s| :: s[j] != c by {
      forall j | i < j < |s| ensures s[j] != c {
        assert s[j] == s[i + 1..][j - i - 1];
      }
    }
    assert 0 <= r;
    assert forall j | r < j < |s| :: s[j] != c by {
      forall j | r < j < |s| ensures s[j] != c {
        assert s[j] == s[r + 1..][j - r - 1];
      }
    }
  }

  /** The summed length of the cycles. */
  function TotalLength(cycles: seq<string>): nat {
    if cycles == [] then 0 else TotalLength(cycles[..|cycles| - 1]) + |cycles[|cycles| - 1]|
  }

  /** The characters of a string. */
  function CharSet(s: string): set<char> {
    set i | 0 <= i < |s| :: s[i]
  }

  /** The characters that occur in some cycle. */
  function Symbols(cycles: seq<string>): set<char> {
    if cycles == [] then {}
    else Symbols(cycles[..|cycles| - 1]) + CharSet(cycles[|cycles| - 1])
  }

  datatype Permutation = Permutation(alphabet: Alphabet, cycles: seq<string>) {

    /** Permutation.size: the size of the alphabet. */
    function Size(): nat {
      alphabet.Size()
    }

    /** The cycles really describe a permutation of the alphabet: the
        alphabet has no repeated character, every cycle character is in the
        alphabet, and no character occurs twice among the cycles. */
    predicate WellFormed() {
      && Distinct(alphabet.chars)
      && (forall k, i | 0 <= k < |cycles| && 0 <= i < |cycles[k]| :: cycles[k][i] in alphabet.chars)
      && NoRepeats(cycles)
    }

    /** What permute(int) returns: the index of the symbol following
        toChar(wrap(p)) in the first cycle containing it (the first symbol
        after the last), or `p` itself, unwrapped, when no cycle contains it. */
    function Successor(p: int): (r: int)
      requires Size() > 0
    {
      var c := alphabet.ToChar(Wrap(Size(), p)).value;
      var k := CycleOf(cycles, c);
      if k == |cycles| then p
      else
        var s := cycles[k];
        var i := IndexOf(s, c);
        if i == |s| - 1 then alphabet.ToInt(s[0]) else alphabet.ToInt(s[i + 1])
    }

    /** What invert(int) returns: the index of the symbol before the last
        occurrence of toChar(wrap(c)) in the first cycle containing it; the
        last symbol of the cycle when the symbol's first occurrence is at the
        front; `c` itself, unwrapped, when no cycle contains it. */
    function Predecessor(c: int): (r: int)
      requires Size() > 0
    {
      var ch := alphabet.ToChar(Wrap(Size(), c)).value;
      var k := CycleOf(cycles, ch);
      if k == |cycles| then c
      else
        var s := cycles[k];
        var i := LastIndexOf(s, ch);
        if IndexOf(s, ch) == 0 then alphabet.ToInt(s[|s| - 1]) else alphabet.ToInt(s[i - 1])
    }

    /** Permutation.permute(int): the cycle search, loop by loop. */
    method Permute(p: int) returns (r: int)
      requires Size() > 0
      ensures r == Successor(p)
    {
      var pChar := alphabet.ToChar(Wrap(Size(), p)).value;
      for k := 0 to |cycles|
        invariant forall j | 0 <= j < k :: pChar !in cycles[j]
      {
        var s := cycles[k];
        for i := 0 to |s|
          invariant pChar !in s[..i]
        {
          if s[i] == pChar {
            CycleAt(cycles, pChar, k);
            if IndexOf(s, s[i]) == |s| - 1 {
              return alphabet.ToInt(s[0]);
            }
            return alphabet.ToInt(s[i + 1]);
          }
        }
        assert s[..|s|] == s;
      }
      return p;
    }

    /** Permutation.invert(int): the cycle search, each cycle scanned from its end. */
    method Invert(c: int) returns (r: int)
      requires Size() > 0
      ensures r == Predecessor(c)
    {
      var cChar := alphabet.ToChar(Wrap(Size(), c)).value;
      for k := 0 to |cycles|
        invariant forall j | 0 <= j < k :: cChar !in cycles[j]
      {
        var s := cycles[k];
        var i := |s| - 1;
        while i >= 0
          invariant -1 <= i < |s|
          invariant cChar !in s[i + 1..]
        {
          if s[i] == cChar {
            CycleAt(cycles, cChar, k);
            LastIndexAt(s, cChar, i);
            if IndexOf(s, s[i]) == 0 {
              var convertChar := s[|s| - 1];
              return alphabet.ToInt(convertChar);
            }
            return alphabet.ToInt(s[i - 1]);
          }
          i := i - 1;
        }
      }
      return c;
    }

    /** Permutation.permute(char): any symbol it gives is an alphabet
        symbol, and for a well-formed permutation every alphabet symbol has
        one. */
    function PermuteChar(p: char): (r: Result<char>)
      requires Size() > 0
      ensures r.Ok? ==> r.value in alphabet.chars
      ensures WellFormed() && p in alphabet.chars ==> r.Ok?
    {
      CharIndexInRange(this, p);
      alphabet.ToChar(Successor(alphabet.ToInt(p)))
    }

    /** Permutation.invert(char), with the same guarantees. */
    function InvertChar(c: char): (r: Result<char>)
      requires Size() > 0
      ensures r.Ok? ==> r.value in alphabet.chars
      ensures WellFormed() && c in alphabet.chars ==> r.Ok?
    {
      CharIndexInRange(this, c);
      alphabet.ToChar(Predecessor(alphabet.ToInt(c)))
    }

    /** Permutation.derangement: the summed cycle length reaches the alphabet size. */
    method Derangement() returns (b: bool)
      ensures b <==> Size() <= TotalLength(cycles)
    {
      var count := 0;
      for k := 0 to |cycles|
        invariant count == TotalLength(cycles[..k])
      {
        assert cycles[..k + 1][..k] == cycles[..k];
        count := count + |cycles[k]|;
      }
      assert cycles[..|cycles|] == cycles;
      return Size() <= count;
    }
  }

  /** The Permutation constructor: the cycles parsed from `cycles` over `alphabet`. */
  function NewPermutation(cycles: string, alphabet: Alphabet): (p: Permutation)
    ensures p.alphabet == alphabet && p.Size() == alphabet.Size()
    ensures forall k | 0 <= k < |p.cycles| :: PlainCycle(p.cycles[k])
    ensures forall c | !IsWhitespace(c) && c != '(' && c != ')' ::
      (exists k, i | 0 <= k < |p.cycles| && 0 <= i < |p.cycles[k]| :: p.cycles[k][i] == c) ==> c in cycles
  {
    ParseClean(cycles);
    ParseChars(cycles);
    Permutation(alphabet, ParseCycles(cycles))
  }

  /** Constructing from the notation " (c1) (c2) ..." of non-empty cycles
      without whitespace or parentheses keeps exactly those cycles. */
  lemma NewPermutationFormat(cs: seq<string>, alphabet: Alphabet)
    requires |cs| > 0
    requires forall k | 0 <= k < |cs| :: cs[k] != [] && PlainCycle(cs[k])
    ensures NewPermutation(Format(cs), alphabet).cycles == cs
  {
    ParseFormat(cs);
  }

  // ---------------------------------------------------------------------
  // Properties of parsing

  /** Removing whitespace and `(` distributes over concatenation. */
  lemma {:induction false} StripAppend(a: string, b: string)
    ensures Strip(a + b) == Strip(a) + Strip(b)
  {
    if a != [] {
      assert (a + b)[0] == a[0];
      assert (a + b)[1..] == a[1..] + b;
      StripAppend(a[1..], b);
      var h: string := if IsWhitespace(a[0]) || a[0] == '(' then [] else [a[0]];
      assert Strip(a) == h + Strip(a[1..]);
      assert Strip(a + b) == h + Strip(a[1..] + b);
    } else {
      assert a + b == b;
    }
  }

  /** A plain cycle string passes through Strip unchanged. */
  lemma {:induction false} StripPlain(c: string)
    requires PlainCycle(c)
    ensures Strip(c) == c
  {
    if c != [] {
      StripPlain(c[1..]);
    }
  }

  /** The `)`-terminated cycle strings, concatenated. */
  function Joined(cs: seq<string>): string {
    if cs == [] then "" else cs[0] + ")" + Joined(cs[1..])
  }

  lemma {:induction false} StripFormat(cs: seq<string>)
    requires forall k | 0 <= k < |cs| :: PlainCycle(cs[k])
    ensures Strip(Format(cs)) == Joined(cs)
  {
    if cs != [] {
      StripFormat(cs[1..]);
      StripAppend(" (" + cs[0] + ")", Format(cs[1..]));
      StripAppend(" (" + cs[0], ")");
      StripAppend(" (", cs[0]);
      StripPlain(cs[0]);
      assert Strip(" (") == "";
      assert Strip(")") == ")";
    }
  }

  /** A `)` after a `)`-free prefix is the first separator. */
  lemma PiecesCons(u: string, v: string)
    requires ')' !in u
    ensures Pieces(u + ")" + v) == [u] + Pieces(v)
  {
    var j := u + ")" + v;
    var i := IndexOf(j, ')');
    assert j[|u|] == ')';
    assert i == |u|;
    assert j[..i] == u;
    assert j[i + 1..] == v;
  }

  lemma {:induction false} PiecesJoined(cs: seq<string>)
    requires forall k | 0 <= k < |cs| :: ')' !in cs[k]
    ensures Pieces(Joined(cs)) == cs + [""]
  {
    if cs == [] {
      assert IndexOf("", ')') == -1;
    } else {
      var rest := cs[1..];
      assert forall k | 0 <= k < |rest| :: ')' !in rest[k] by {
        forall k | 0 <= k < |rest| ensures ')' !in rest[k] {
          assert rest[k] == cs[k + 1];
        }
      }
      PiecesJoined(rest);
      PiecesJoinedStep(cs[0], rest);
      assert cs == [cs[0]] + rest;
    }
  }

  /** One more cycle string in front of the joined ones. */
  lemma PiecesJoinedStep(x: string, rest: seq<string>)
    requires ')' !in x && Pieces(Joined(rest)) == rest + [""]
    ensures Pieces(Joined([x] + rest)) == ([x] + rest) + [""]
  {
    var cs := [x] + rest;
    assert cs[1..] == rest;
    assert Joined(cs) == x + ")" + Joined(rest);
    PiecesCons(x, Joined(rest));
    assert [x] + (rest + [""]) == cs + [""];
  }

  lemma DropOneEmpty(cs: seq<string>)
    requires |cs| > 0 && cs[|cs| - 1] != []
    ensures DropTrailingEmpty(cs + [""]) == cs
  {
    assert (cs + [""])[..|cs|] == cs;
  }

  /** Parsing inverts the notation " (c1) (c2) ..." for a non-empty list of
      non-empty cycle strings without whitespace or parentheses. */
  lemma ParseFormat(cs: seq<string>)
    requires |cs| > 0
    requires forall k | 0 <= k < |cs| :: cs[k] != [] && PlainCycle(cs[k])
    ensures ParseCycles(Format(cs)) == cs
  {
    StripFormat(cs);
    assert forall k | 0 <= k < |cs| :: ')' !in cs[k] by {
      forall k | 0 <= k < |cs| ensures ')' !in cs[k] {
        assert PlainCycle(cs[k]);
      }
    }
    PiecesJoined(cs);
    var j := Joined(cs);
    assert j == cs[0] + ")" + Joined(cs[1..]);
    assert j[|cs[0]|] == ')';
    DropOneEmpty(cs);
  }

  /** An empty cycle string yields one empty cycle, which moves nothing. */
  lemma ParseEmpty()
    ensures ParseCycles("") == [""]
  {
  }

  /** Every piece is made of characters of the split string. */
  lemma {:induction false} PiecesChars(s: string, k: int, i: int)
    requires 0 <= k < |Pieces(s)| && 0 <= i < |Pieces(s)[k]|
    ensures Pieces(s)[k][i] in s
    decreases |s|
  {
    var j := IndexOf(s, ')');
    if j >= 0 && k > 0 {
      PiecesChars(s[j + 1..], k - 1, i);
      assert Pieces(s)[k] == Pieces(s[j + 1..])[k - 1];
    }
  }

  /** Every parsed cycle is free of whitespace and parentheses. */
  lemma ParseClean(cycles: string)
    ensures forall k | 0 <= k < |ParseCycles(cycles)| :: PlainCycle(ParseCycles(cycles)[k])
  {
    var t := Strip(cycles);
    if ')' in t {
      var ps := Pieces(t);
      var r := DropTrailingEmpty(ps);
      forall k | 0 <= k < |r|
        ensures PlainCycle(r[k])
      {
        assert r[k] == ps[k];
        forall i | 0 <= i < |r[k]|
          ensures !IsWhitespace(r[k][i]) && r[k][i] != '(' && r[k][i] != ')'
        {
          PiecesChars(t, k, i);
        }
      }
    }
  }

  /** Strip keeps every character other than whitespace and `(`, as often
      as it occurs, and removes the others. */
  lemma {:induction false} StripKeeps(s: string)
    ensures forall c | !IsWhitespace(c) && c != '(' :: multiset(Strip(s))[c] == multiset(s)[c]
    ensures forall c | IsWhitespace(c) || c == '(' :: multiset(Strip(s))[c] == 0
  {
    if s != [] {
      StripKeeps(s[1..]);
      assert s == [s[0]] + s[1..];
    }
  }

  /** A stripped character was in the input. */
  lemma StripChars(s: string, c: char)
    requires c in Strip(s)
    ensures c in s
  {
    StripKeeps(s);
    assert multiset(Strip(s))[c] > 0;
  }

  /** Every character of a parsed cycle was in the notation. */
  lemma ParseChars(cycles: string)
    ensures forall k, i | 0 <= k < |ParseCycles(cycles)| && 0 <= i < |ParseCycles(cycles)[k]| ::
      ParseCycles(cycles)[k][i] in cycles
  {
    var t := Strip(cycles);
    forall k, i | 0 <= k < |ParseCycles(cycles)| && 0 <= i < |ParseCycles(cycles)[k]|
      ensures ParseCycles(cycles)[k][i] in cycles
    {
      if ')' in t {
        var ps := Pieces(t);
        assert ParseCycles(cycles)[k] == ps[k];
        PiecesChars(t, k, i);
      } else {
        assert ParseCycles(cycles)[k] == t;
      }
      StripChars(cycles, ParseCycles(cycles)[k][i]);
    }
  }

  // ---------------------------------------------------------------------
  // Properties of permute and invert

  /** In a permutation without repeated symbols, a cycle symbol is found in
      its own cycle, at its own position, from both ends. */
  lemma MemberPosition(cycles: seq<string>, k: int, i: int)
    requires NoRepeats(cycles)
    requires 0 <= k < |cycles| && 0 <= i < |cycles[k]|
    ensures CycleOf(cycles, cycles[k][i]) == k
    ensures IndexOf(cycles[k], cycles[k][i]) == i
    ensures LastIndexOf(cycles[k], cycles[k][i]) == i
  {
    assert cycles[k][i] in cycles[k];
  }

  /** A well-formed permutation's cycle symbols are alphabet indices. */
  lemma MemberIndex(perm: Permutation, k: int, i: int)
    requires perm.WellFormed()
    requires 0 <= k < |perm.cycles| && 0 <= i < |perm.cycles[k]|
    ensures perm.Size() > 0
    ensures var p := perm.alphabet.ToInt(perm.cycles[k][i]);
      0 <= p < perm.Size() && Wrap(perm.Size(), p) == p && perm.alphabet.ToChar(p) == Ok(perm.cycles[k][i])
  {
    var p := perm.alphabet.ToInt(perm.cycles[k][i]);
    WrapInRange(perm.Size(), p);
  }

  /** permute on a cycle symbol gives the next symbol of its cycle, the
      first after the last; a one-symbol cycle maps its symbol to itself. */
  lemma SuccessorOfMember(perm: Permutation, k: int, i: int)
    requires perm.WellFormed()
    requires 0 <= k < |perm.cycles| && 0 <= i < |perm.cycles[k]|
    ensures perm.Size() > 0
    ensures var s := perm.cycles[k];
      perm.Successor(perm.alphabet.ToInt(s[i])) == perm.alphabet.ToInt(if i == |s| - 1 then s[0] else s[i + 1])
  {
    MemberIndex(perm, k, i);
    MemberPosition(perm.cycles, k, i);
  }

  /** invert on a cycle symbol gives the previous symbol of its cycle, the
      last before the first. */
  lemma PredecessorOfMember(perm: Permutation, k: int, i: int)
    requires perm.WellFormed()
    requires 0 <= k < |perm.cycles| && 0 <= i < |perm.cycles[k]|
    ensures perm.Size() > 0
    ensures var s := perm.cycles[k];
      perm.Predecessor(perm.alphabet.ToInt(s[i])) == perm.alphabet.ToInt(if i == 0 then s[|s| - 1] else s[i - 1])
  {
    MemberIndex(perm, k, i);
    MemberPosition(perm.cycles, k, i);
  }

  /** A symbol in no cycle is a fixed point, and what comes back is the raw
      argument, not its wrapped value. */
  lemma FixedPoint(perm: Permutation, p: int)
    requires perm.Size() > 0
    requires forall k | 0 <= k < |perm.cycles| :: perm.alphabet.chars[Wrap(perm.Size(), p)] !in perm.cycles[k]
    ensures perm.Successor(p) == p && perm.Predecessor(p) == p
  {
  }

  /** An argument outside [0, size) whose wrapped symbol lies in a cycle
      behaves exactly as its wrapped value. */
  lemma WrapInvariance(perm: Permutation, p: int, k: int)
    requires perm.Size() > 0
    requires 0 <= k < |perm.cycles| && perm.alphabet.chars[Wrap(perm.Size(), p)] in perm.cycles[k]
    ensures perm.Successor(p) == perm.Successor(Wrap(perm.Size(), p))
    ensures perm.Predecessor(p) == perm.Predecessor(Wrap(perm.Size(), p))
  {
    WrapInRange(perm.Size(), Wrap(perm.Size(), p));
  }

  /** Arguments outside [0, size) wrap: over ABC with cycle (BAC),
      permute(-2) == 0, permute(8) == 1, invert(-2) == 2 and invert(8) == 0,
      the values the source's tests expect. */
  lemma ExampleWrap()
    ensures Permutation(Alphabet("ABC"), ["BAC"]).Successor(-2) == 0
    ensures Permutation(Alphabet("ABC"), ["BAC"]).Successor(8) == 1
    ensures Permutation(Alphabet("ABC"), ["BAC"]).Predecessor(-2) == 2
    ensures Permutation(Alphabet("ABC"), ["BAC"]).Predecessor(8) == 0
  {
    var p := Permutation(Alphabet("ABC"), ["BAC"]);
    assert Wrap(3, -2) == 1;
    assert p.alphabet.ToChar(1).value == 'B';
    assert CycleOf(p.cycles, 'B') == 0;
    assert IndexOf("BAC", 'B') == 0;
    assert LastIndexOf("BAC", 'B') == 0;
    assert p.alphabet.ToInt('A') == 0;
    assert p.alphabet.ToInt('C') == 2;
    assert Wrap(3, 8) == 2;
    assert p.alphabet.ToChar(2).value == 'C';
    assert CycleOf(p.cycles, 'C') == 0;
    assert IndexOf("BAC", 'C') == 2;
    assert LastIndexOf("BAC", 'C') == 2;
    assert p.alphabet.ToInt('B') == 1;
  }

  /** A symbol in no cycle gives back the raw argument: over ABCD with cycle
      (ABC), permute(-1) and invert(-1) return -1 itself, because D, the
      wrapped symbol, is in no cycle. */
  lemma ExampleRawReturn()
    ensures Permutation(Alphabet("ABCD"), ["ABC"]).Successor(-1) == -1
    ensures Permutation(Alphabet("ABCD"), ["ABC"]).Predecessor(-1) == -1
  {
    var q := Permutation(Alphabet("ABCD"), ["ABC"]);
    assert Wrap(4, -1) == 3;
    assert q.alphabet.ToChar(3).value == 'D';
    assert CycleOf(q.cycles, 'D') == 1;
  }

  /** permute and invert map alphabet indices to alphabet indices. */
  lemma SuccessorInRange(perm: Permutation, p: int)
    requires perm.WellFormed() && 0 <= p < perm.Size()
    ensures 0 <= perm.Successor(p) < perm.Size()
    ensures 0 <= perm.Predecessor(p) < perm.Size()
  {
  }

  /** The same for the index of an alphabet character. */
  lemma CharIndexInRange(perm: Permutation, c: char)
    requires perm.Size() > 0
    ensures perm.WellFormed() && c in perm.alphabet.chars ==>
      && 0 <= perm.Successor(perm.alphabet.ToInt(c)) < perm.Size()
      && 0 <= perm.Predecessor(perm.alphabet.ToInt(c)) < perm.Size()
  {
    if perm.WellFormed() && c in perm.alphabet.chars {
      SuccessorInRange(perm, perm.alphabet.ToInt(c));
    }
  }

  /** invert undoes permute on every index. */
  lemma InvertAfterPermute(perm: Permutation, p: int)
    requires perm.WellFormed() && 0 <= p < perm.Size()
    ensures perm.Predecessor(perm.Successor(p)) == p
  {
    WrapInRange(perm.Size(), p);
    var c := perm.alphabet.chars[p];
    ToIntToChar(perm.alphabet, p);
    var k := CycleOf(perm.cycles, c);
    if k < |perm.cycles| {
      var s := perm.cycles[k];
      var i := IndexOf(s, c);
      SuccessorOfMember(perm, k, i);
      PredecessorOfMember(perm, k, if i == |s| - 1 then 0 else i + 1);
    }
  }

  /** permute undoes invert on every index. */
  lemma PermuteAfterInvert(perm: Permutation, p: int)
    requires perm.WellFormed() && 0 <= p < perm.Size()
    ensures perm.Successor(perm.Predecessor(p)) == p
  {
    WrapInRange(perm.Size(), p);
    var c := perm.alphabet.chars[p];
    ToIntToChar(perm.alphabet, p);
    var k := CycleOf(perm.cycles, c);
    if k < |perm.cycles| {
      var s := perm.cycles[k];
      var i := IndexOf(s, c);
      PredecessorOfMember(perm, k, i);
      SuccessorOfMember(perm, k, if i == 0 then |s| - 1 else i - 1);
    }
  }

  /** With cycles of at most two symbols, permute and invert agree, so
      permute is its own inverse. */
  lemma Involution(perm: Permutation, p: int)
    requires perm.WellFormed() && 0 <= p < perm.Size()
    requires forall k | 0 <= k < |perm.cycles| :: |perm.cycles[k]| <= 2
    ensures perm.Successor(p) == perm.Predecessor(p)
    ensures perm.Successor(perm.Successor(p)) == p
  {
    ShortCyclesSymmetric(perm, p);
    SuccessorInRange(perm, p);
    ShortCyclesSymmetric(perm, perm.Successor(p));
    InvertAfterPermute(perm, p);
  }

  /** With cycles of at most two symbols, permute and invert agree. */
  lemma ShortCyclesSymmetric(perm: Permutation, p: int)
    requires perm.WellFormed() && 0 <= p < perm.Size()
    requires forall k | 0 <= k < |perm.cycles| :: |perm.cycles[k]| <= 2
    ensures perm.Successor(p) == perm.Predecessor(p)
  {
    var n := perm.Size();
    WrapInRange(n, p);
    var c := perm.alphabet.chars[p];
    ToIntToChar(perm.alphabet, p);
    var k := CycleOf(perm.cycles, c);
    if k < |perm.cycles| {
      var i := IndexOf(perm.cycles[k], c);
      SuccessorOfMember(perm, k, i);
      PredecessorOfMember(perm, k, i);
    }
  }

  /** permute(char) and invert(char) on a cycle symbol give its neighbours. */
  lemma CharOfMember(perm: Permutation, k: int, i: int)
    requires perm.WellFormed()
    requires 0 <= k < |perm.cycles| && 0 <= i < |perm.cycles[k]|
    ensures perm.Size() > 0
    ensures var s := perm.cycles[k];
      && perm.PermuteChar(s[i]) == Ok(if i == |s| - 1 then s[0] else s[i + 1])
      && perm.InvertChar(s[i]) == Ok(if i == 0 then s[|s| - 1] else s[i - 1])
  {
    var s := perm.cycles[k];
    SuccessorOfMember(perm, k, i);
    PredecessorOfMember(perm, k, i);
    MemberIndex(perm, k, if i == |s| - 1 then 0 else i + 1);
    MemberIndex(perm, k, if i == 0 then |s| - 1 else i - 1);
  }

  /** permute(char) and invert(char) return an alphabet symbol in no cycle unchanged. */
  lemma CharOfFixedPoint(perm: Permutation, c: char)
    requires c in perm.alphabet.chars
    requires forall k | 0 <= k < |perm.cycles| :: c !in perm.cycles[k]
    ensures perm.Size() > 0
    ensures perm.PermuteChar(c) == Ok(c) && perm.InvertChar(c) == Ok(c)
  {
    var p := perm.alphabet.ToInt(c);
    WrapInRange(perm.Size(), p);
  }

  /** A character outside the alphabet is not rejected: toInt gives -1,
      which wraps to the last symbol. permute(char) then answers for the
      last symbol when that symbol lies in a cycle, and fails in toChar(-1)
      otherwise. */
  lemma CharOfAbsent(perm: Permutation, c: char)
    requires perm.Size() > 0 && c !in perm.alphabet.chars
    ensures var last := perm.alphabet.chars[perm.Size() - 1];
      perm.PermuteChar(c) ==
        if CycleOf(perm.cycles, last) < |perm.cycles| then perm.PermuteChar(last) else Err(EnigmaFailure)
  {
    var n := perm.Size();
    var last := perm.alphabet.chars[n - 1];
    assert Wrap(n, -1) == n - 1 by {
      WrapIsFlooredMod(n, -1);
      ModUnique(-1, n, -1, n - 1);
    }
    var q := perm.alphabet.ToInt(last);
    WrapInRange(n, q);
  }

  // ---------------------------------------------------------------------
  // Properties of derangement

  /** A string without repeats has as many distinct characters as positions. */
  lemma {:induction false} CharSetSize(s: string)
    requires Distinct(s)
    ensures |CharSet(s)| == |s|
  {
    if s != [] {
      var t := s[..|s| - 1];
      CharSetSize(t);
      assert CharSet(s) == CharSet(t) + {s[|s| - 1]};
      assert s[|s| - 1] !in CharSet(t);
    }
  }

  /** A character is a cycle symbol exactly when some cycle contains it. */
  lemma {:induction false} SymbolsMembers(cycles: seq<string>, c: char)
    ensures c in Symbols(cycles) <==> CycleOf(cycles, c) < |cycles|
  {
    if cycles != [] {
      var init := cycles[..|cycles| - 1];
      SymbolsMembers(init, c);
      if CycleOf(init, c) < |init| {
        assert c in cycles[CycleOf(init, c)];
      }
      if CycleOf(cycles, c) < |cycles| {
        var k := CycleOf(cycles, c);
        if k < |init| {
          assert init[k] == cycles[k];
          assert CycleOf(init, c) <= k;
        } else {
          var i :| 0 <= i < |cycles[k]| && cycles[k][i] == c;
        }
      }
    }
  }

  /** Without repeats, the number of distinct cycle symbols is the summed length. */
  lemma {:induction false} SymbolsSize(cycles: seq<string>)
    requires NoRepeats(cycles)
    ensures |Symbols(cycles)| == TotalLength(cycles)
  {
    if cycles != [] {
      var init := cycles[..|cycles| - 1];
      var last := cycles[|cycles| - 1];
      assert NoRepeats(init) by {
        forall k1, i1, k2, i2 |
          0 <= k1 < |init| && 0 <= i1 < |init[k1]| && 0 <= k2 < |init| && 0 <= i2 < |init[k2]| &&
          init[k1][i1] == init[k2][i2]
          ensures k1 == k2 && i1 == i2
        {
          assert cycles[k1][i1] == cycles[k2][i2];
        }
      }
      SymbolsSize(init);
      assert Distinct(last);
      CharSetSize(last);
      assert Symbols(init) !! CharSet(last) by {
        forall c | c in CharSet(last) ensures c !in Symbols(init) {
          var i :| 0 <= i < |last| && last[i] == c;
          SymbolsMembers(init, c);
        }
      }
    }
  }

  /** derangement() holds exactly when every alphabet symbol lies in some
      cycle, for a well-formed permutation. */
  lemma DerangementCoverage(perm: Permutation)
    requires perm.WellFormed()
    ensures perm.Size() <= TotalLength(perm.cycles) <==>
      forall i | 0 <= i < perm.Size() :: perm.alphabet.chars[i] in Symbols(perm.cycles)
  {
    var a := CharSet(perm.alphabet.chars);
    var syms := Symbols(perm.cycles);
    CharSetSize(perm.alphabet.chars);
    SymbolsSize(perm.cycles);
    assert syms <= a by {
      forall c | c in syms ensures c in a {
        SymbolsMembers(perm.cycles, c);
        var k := CycleOf(perm.cycles, c);
        var i :| 0 <= i < |perm.cycles[k]| && perm.cycles[k][i] == c;
        var j :| 0 <= j < perm.Size() && perm.alphabet.chars[j] == c;
      }
    }
    if forall i | 0 <= i < perm.Size() :: perm.alphabet.chars[i] in syms {
      assert a <= syms;
      assert a == syms;
    }
    if perm.Size() <= TotalLength(perm.cycles) {
      assert |a - syms| == |a| - |syms|;
      assert a - syms == {};
      forall i | 0 <= i < perm.Size() ensures perm.alphabet.chars[i] in syms {
        assert perm.alphabet.chars[i] in a;
      }
    }
  }

  /** A derangement without one-symbol cycles moves every index. */
  lemma DerangementMovesAll(perm: Permutation, p: int)
    requires perm.WellFormed() && 0 <= p < perm.Size()
    requires perm.Size() <= TotalLength(perm.cycles)
    requires forall k | 0 <= k < |perm.cycles| :: |perm.cycles[k]| != 1
    ensures perm.Successor(p) != p
  {
    DerangementCoverage(perm);
    var c := perm.alphabet.chars[p];
    SymbolsMembers(perm.cycles, c);
    var k := CycleOf(perm.cycles, c);
    var s := perm.cycles[k];
    var i := IndexOf(s, c);
    var next := if i == |s| - 1 then 0 else i + 1;
    SuccessorOfMember(perm, k, i);
    ToIntToChar(perm.alphabet, p);
    MemberIndex(perm, k, next);
    assert s[next] != s[i];
  }
}
