/** The rotor family. MovingRotor.java is modelled as written; the base class
    Rotor, Reflector and FixedRotor are not modelled here, so what
    they contribute (the setting field, `set`, `convertForward`,
    `convertBackward`, `reflecting`, the base `advance` and `atNotch`) is an
    ASSUMED interface, marked "Assumed" below. */
module Rotors {
  import opened Errors
  import opened Alphabets
  import opened Permutations

  /** The three rotor variants. Only a moving rotor carries notches. */
  datatype Kind = Reflector | Fixed | Moving(notches: string)

  /** Assumed: `set(posn)` stores posn reduced into [0, size) by the floored
      modulo (or posn itself over an empty alphabet). */
  function SetValue(size: nat, posn: int): (r: int)
    ensures size > 0 ==> 0 <= r < size
  {
    if size > 0 then Wrap(size, posn) else posn
  }

  /** Assumed: the forward conversion of a rotor with permutation `perm` at
      setting `s`: enter shifted by s, permute, leave shifted back. */
  function Forward(perm: Permutation, s: int, p: int): (r: int)
    requires perm.Size() > 0
    ensures 0 <= r < perm.Size()
  {
    Wrap(perm.Size(), perm.Successor(Wrap(perm.Size(), p + s)) - s)
  }

  /** Assumed: the backward conversion, the same shift around invert. */
  function Backward(perm: Permutation, s: int, p: int): (r: int)
    requires perm.Size() > 0
    ensures 0 <= r < perm.Size()
  {
    Wrap(perm.Size(), perm.Predecessor(Wrap(perm.Size(), p + s)) - s)
  }

  /** Entering with an index shifted by s and leaving shifted back
      cancels out. */
  lemma UnshiftShift(n: int, s: int, q: int)
    requires n > 0 && 0 <= q < n
    ensures Wrap(n, Wrap(n, q - s) + s) == q
  {
    WrapShift(n, q - s, s);
    WrapInRange(n, q);
  }

  /** Shifting a wrapped index by s and back gives the index. */
  lemma ShiftUnshift(n: int, s: int, p: int)
    requires n > 0 && 0 <= p < n
    ensures Wrap(n, Wrap(n, p + s) - s) == p
  {
    WrapShift(n, p + s, -s);
    WrapInRange(n, p);
  }

  /** Backward undoes Forward at every setting, for a well-formed permutation. */
  lemma BackwardForward(perm: Permutation, s: int, p: int)
    requires perm.WellFormed() && 0 <= p < perm.Size()
    ensures Backward(perm, s, Forward(perm, s, p)) == p
  {
    var q := Wrap(perm.Size(), p + s);
    SuccessorInRange(perm, q);
    InvertAfterPermute(perm, q);
    BackwardForwardAt(perm, s, p);
  }

  lemma BackwardForwardAt(perm: Permutation, s: int, p: int)
    requires perm.Size() > 0 && 0 <= p < perm.Size()
    requires var q := Wrap(perm.Size(), p + s);
      0 <= perm.Successor(q) < perm.Size() && perm.Predecessor(perm.Successor(q)) == q
    ensures Backward(perm, s, Forward(perm, s, p)) == p
  {
    var n := perm.Size();
    var t := perm.Successor(Wrap(n, p + s));
    UnshiftShift(n, s, t);
    BackwardLands(perm, s, p, Wrap(n, t - s), t);
  }

  /** Forward undoes Backward at every setting, for a well-formed permutation. */
  lemma ForwardBackward(perm: Permutation, s: int, p: int)
    requires perm.WellFormed() && 0 <= p < perm.Size()
    ensures Forward(perm, s, Backward(perm, s, p)) == p
  {
    var q := Wrap(perm.Size(), p + s);
    SuccessorInRange(perm, q);
    PermuteAfterInvert(perm, q);
    ForwardBackwardAt(perm, s, p);
  }

  lemma ForwardBackwardAt(perm: Permutation, s: int, p: int)
    requires perm.Size() > 0 && 0 <= p < perm.Size()
    requires var q := Wrap(perm.Size(), p + s);
      0 <= perm.Predecessor(q) < perm.Size() && perm.Successor(perm.Predecessor(q)) == q
    ensures Forward(perm, s, Backward(perm, s, p)) == p
  {
    var n := perm.Size();
    var t := perm.Predecessor(Wrap(n, p + s));
    UnshiftShift(n, s, t);
    ForwardLands(perm, s, p, Wrap(n, t - s), t);
  }

  /** A permutation made of cycles of at most two symbols, such as a
      reflector's, converts forward as its own inverse at every setting. */
  lemma ForwardInvolution(perm: Permutation, s: int, p: int)
    requires perm.WellFormed() && 0 <= p < perm.Size()
    requires forall k | 0 <= k < |perm.cycles| :: |perm.cycles[k]| <= 2
    ensures Forward(perm, s, Forward(perm, s, p)) == p
  {
    var q := Wrap(perm.Size(), p + s);
    SuccessorInRange(perm, q);
    Involution(perm, q);
    ForwardTwiceAt(perm, s, p);
  }

  /** A forward conversion fixes p exactly when the permutation fixes the
      symbol p enters as. */
  lemma ForwardFixedPoint(perm: Permutation, s: int, p: int)
    requires perm.WellFormed() && 0 <= p < perm.Size()
    ensures var q := Wrap(perm.Size(), p + s);
      Forward(perm, s, p) == p <==> perm.Successor(q) == q
  {
    var n := perm.Size();
    var q := Wrap(n, p + s);
    SuccessorInRange(perm, q);
    ForwardShiftedBack(n, s, p, perm.Successor(q));
  }

  /** The arithmetic behind ForwardFixedPoint: leaving as t shifted back
      gives p exactly when t is p shifted in. */
  lemma ForwardShiftedBack(n: int, s: int, p: int, t: int)
    requires n > 0 && 0 <= p < n && 0 <= t < n
    ensures Wrap(n, t - s) == p <==> t == Wrap(n, p + s)
  {
    UnshiftShift(n, s, t);
    ShiftUnshift(n, s, p);
  }

  lemma ForwardTwiceAt(perm: Permutation, s: int, p: int)
    requires perm.Size() > 0 && 0 <= p < perm.Size()
    requires var q := Wrap(perm.Size(), p + s);
      0 <= perm.Successor(q) < perm.Size() && perm.Successor(perm.Successor(q)) == q
    ensures Forward(perm, s, Forward(perm, s, p)) == p
  {
    var n := perm.Size();
    var t := perm.Successor(Wrap(n, p + s));
    UnshiftShift(n, s, t);
    ForwardLands(perm, s, p, Wrap(n, t - s), t);
  }

  /** Backward from f lands on p when f, shifted in, is a symbol whose
      predecessor is p shifted in. */
  lemma BackwardLands(perm: Permutation, s: int, p: int, f: int, t: int)
    requires perm.Size() > 0 && 0 <= p < perm.Size()
    requires Wrap(perm.Size(), f + s) == t && perm.Predecessor(t) == Wrap(perm.Size(), p + s)
    ensures Backward(perm, s, f) == p
  {
    ShiftUnshift(perm.Size(), s, p);
  }

  /** Forward from f lands on p when f, shifted in, is a symbol whose
      successor is p shifted in. */
  lemma ForwardLands(perm: Permutation, s: int, p: int, f: int, t: int)
    requires perm.Size() > 0 && 0 <= p < perm.Size()
    requires Wrap(perm.Size(), f + s) == t && perm.Successor(t) == Wrap(perm.Size(), p + s)
    ensures Forward(perm, s, f) == p
  {
    ShiftUnshift(perm.Size(), s, p);
  }

  class Rotor {
    const name: string
    const perm: Permutation
    const kind: Kind
    /** Assumed: the current setting, an index of the rotor's alphabet. */
    var setting: int

    /** A rotor named `name` over `perm`, at setting 0. */
    constructor (name: string, perm: Permutation, kind: Kind)
      ensures this.name == name && this.perm == perm && this.kind == kind
      ensures setting == 0
      ensures Rotates() <==> kind.Moving?
    {
      this.name := name;
      this.perm := perm;
      this.kind := kind;
      setting := 0;
    }

    /** The size of the rotor's alphabet. */
    function Size(): nat {
      perm.Size()
    }

    /** rotates: true for a moving rotor; assumed false for the others. */
    predicate Rotates() {
      kind.Moving?
    }

    /** Assumed: reflecting is true exactly for a reflector. */
    predicate Reflecting() {
      kind.Reflector?
    }

    /** Whether the rotor is at a notch when its setting is `s`: some notch
        character has alphabet index `s`. Assumed false for a rotor that
        does not move. */
    predicate NotchAt(s: int) {
      kind.Moving? && exists i | 0 <= i < |kind.notches| :: perm.alphabet.ToInt(kind.notches[i]) == s
    }

    /** The setting that `advance` leaves behind when it starts from `s`:
        set(s + 1) for a moving rotor; assumed unchanged for the others. */
    function AdvancedValue(s: int): int {
      if kind.Moving? then SetValue(Size(), s + 1) else s
    }

    /** MovingRotor.atNotch: a search over the notch characters. */
    method AtNotch() returns (b: bool)
      ensures b <==> NotchAt(setting)
    {
      if !kind.Moving? {
        return false;
      }
      var notches := kind.notches;
      for i := 0 to |notches|
        invariant forall j | 0 <= j < i :: perm.alphabet.ToInt(notches[j]) != setting
      {
        if perm.alphabet.ToInt(notches[i]) == setting {
          return true;
        }
      }
      return false;
    }

    /** Assumed: set(posn). */
    method Set(posn: int)
      modifies this
      ensures setting == SetValue(Size(), posn)
    {
      setting := SetValue(Size(), posn);
    }

    /** Assumed: set(char), the setting named by a character of the alphabet. */
    method SetChar(c: char)
      modifies this
      ensures setting == SetValue(Size(), perm.alphabet.ToInt(c))
    {
      Set(perm.alphabet.ToInt(c));
    }

    /** advance: MovingRotor calls set(setting() + 1); the base version is
        assumed to do nothing. */
    method Advance()
      modifies this
      ensures setting == AdvancedValue(old(setting))
    {
      if kind.Moving? {
        Set(setting + 1);
      }
    }

    /** Assumed: convertForward at the current setting. */
    function ConvertForward(p: int): (r: int)
      reads this
      requires Size() > 0
      ensures 0 <= r < Size()
    {
      Forward(perm, setting, p)
    }

    /** Assumed: convertBackward at the current setting. */
    function ConvertBackward(p: int): (r: int)
      reads this
      requires Size() > 0
      ensures 0 <= r < Size()
    {
      Backward(perm, setting, p)
    }
  }

  // ---------------------------------------------------------------------
  // Properties of moving rotors

  /** Over a repetition-free alphabet, a moving rotor is at a notch exactly
      when the symbol at its setting is one of its notch characters. */
  lemma NotchBySymbol(r: Rotor, s: int)
    requires Distinct(r.perm.alphabet.chars) && 0 <= s < r.Size()
    requires r.kind.Moving?
    ensures r.NotchAt(s) <==> r.perm.alphabet.chars[s] in r.kind.notches
  {
    var a := r.perm.alphabet;
    var c := a.chars[s];
    ToIntToChar(a, s);
    if c in r.kind.notches {
      var i :| 0 <= i < |r.kind.notches| && r.kind.notches[i] == c;
      assert a.ToInt(r.kind.notches[i]) == s;
    }
    if r.NotchAt(s) {
      var i :| 0 <= i < |r.kind.notches| && a.ToInt(r.kind.notches[i]) == s;
      IndexNamesSymbol(a, r.kind.notches[i], s);
    }
  }

  /** A character whose alphabet index is `s` is the symbol at `s`. */
  lemma IndexNamesSymbol(a: Alphabet, c: char, s: int)
    requires 0 <= s && a.ToInt(c) == s
    ensures s < a.Size() && a.chars[s] == c
  {
  }

  /** A moving rotor without notches is never at a notch, and a rotor that
      does not move is never at a notch. */
  lemma NeverAtNotch(r: Rotor, s: int)
    requires !r.kind.Moving? || r.kind.notches == []
    ensures !r.NotchAt(s)
  {
  }

  /** A moving rotor advanced m times from setting s stands at s + m,
      reduced modulo the alphabet size. */
  function AdvancedTimes(r: Rotor, s: int, m: nat): int {
    if m == 0 then s else r.AdvancedValue(AdvancedTimes(r, s, m - 1))
  }

  lemma {:induction false} AdvanceCounts(r: Rotor, s: int, m: nat)
    requires r.kind.Moving? && r.Size() > 0
    ensures AdvancedTimes(r, s, m) == (if m == 0 then s else Wrap(r.Size(), s + m))
  {
    if m > 1 {
      AdvanceCounts(r, s, m - 1);
      WrapShift(r.Size(), s + (m - 1), 1);
    }
  }
}
