/** Machine.java: a catalog of rotors, the rotors placed in the slots, the
    plugboard, and the conversion of one index or one message. */
module Machines {
  import opened Errors
  import opened Alphabets
  import opened Permutations
  import opened Rotors

  /** What converting a message leaves behind: the output, or the failure
      that stopped it, and the settings of the catalog rotors. */
  datatype Session = Session(out: Result<string>, settings: seq<int>)

  /** No two catalog rotors share a name. */
  predicate DistinctNames(rotors: seq<Rotor>) {
    forall x, y | 0 <= x < y < |rotors| :: rotors[x].name != rotors[y].name
  }

  /** No name occurs twice. */
  predicate DistinctStrings(names: seq<string>) {
    forall x, y | 0 <= x < y < |names| :: names[x] != names[y]
  }

  /** The settings of a list of rotors, in order. */
  function SettingsOf(rs: seq<Rotor>): (r: seq<int>)
    reads rs
    ensures |r| == |rs|
    ensures forall c | 0 <= c < |rs| :: r[c] == rs[c].setting
  {
    if rs == [] then [] else SettingsOf(rs[..|rs| - 1]) + [rs[|rs| - 1].setting]
  }

  class Machine {
    const alphabet: Alphabet
    const numRotors: int
    const numPawls: int
    /** The catalog of available rotors. */
    const allRotors: seq<Rotor>
    /** The catalog indices of the rotors in the slots, slot 0 first. A Java
        list of Rotor references becomes a list of indices, so that the
        reference comparisons of the source compare indices. */
    var slots: seq<nat>
    /** Whether the slot list exists: Java's list stays null until
        insertRotors first builds it. While it is false, `slots` is empty. */
    var hasSlots: bool
    /** The plugboard, absent until setPlugboard is called. */
    var plugboard: Option<Permutation>

    /** Slot lists hold catalog indices, each at most once. */
    predicate SlotsOk(sl: seq<nat>) {
      && (forall i | 0 <= i < |sl| :: sl[i] < |allRotors|)
      && (forall i, j | 0 <= i < j < |sl| :: sl[i] != sl[j])
    }

    /** What construction establishes and every operation keeps. */
    predicate Valid()
      reads this
    {
      && 1 < numRotors && 0 <= numPawls < numRotors
      && DistinctNames(allRotors)
      && SlotsOk(slots)
      && (!hasSlots ==> slots == [])
    }

    /** A slot list the stepping can run on: some slot is filled and slot 0
        does not rotate. */
    predicate Steps(sl: seq<nat>) {
      SlotsOk(sl) && |sl| > 0 && !allRotors[sl[0]].Rotates()
    }

    /** A slot list the signal can pass through: no alphabet in it is empty. */
    predicate Conducts(sl: seq<nat>) {
      SlotsOk(sl) && forall i | 0 <= i < |sl| :: allRotors[sl[i]].Size() > 0
    }

    /** A slot list and plugboard convert can run with. */
    predicate Wired(sl: seq<nat>, pb: Permutation) {
      Steps(sl) && Conducts(sl) && pb.Size() > 0
    }

    /** The machine can step. */
    predicate Stepping()
      reads this
    {
      Valid() && hasSlots && Steps(slots)
    }

    /** The machine can convert: it can step, the plugboard is set, and no
        alphabet in the signal path is empty. */
    predicate Ready()
      reads this
    {
      Valid() && hasSlots && plugboard.Some? && Wired(slots, plugboard.value)
    }

    /** The settings of the catalog rotors, by catalog index. */
    function Settings(): (r: seq<int>)
      reads allRotors
      ensures |r| == |allRotors|
      ensures forall c | 0 <= c < |allRotors| :: r[c] == allRotors[c].setting
    {
      SettingsOf(allRotors)
    }

    /** The Machine constructor, once its checks have passed. */
    constructor (alpha: Alphabet, numRotors: int, pawls: int, allRotors: seq<Rotor>)
      requires 1 < numRotors && 0 <= pawls < numRotors && DistinctNames(allRotors)
      ensures this.alphabet == alpha && this.numRotors == numRotors
      ensures this.numPawls == pawls && this.allRotors == allRotors
      ensures slots == [] && !hasSlots && plugboard == None
      ensures Valid()
    {
      alphabet := alpha;
      this.numRotors := numRotors;
      numPawls := pawls;
      this.allRotors := allRotors;
      slots := [];
      hasSlots := false;
      plugboard := None;
    }

    // -------------------------------------------------------------------
    // Changing one catalog rotor

    /** Distinct names make distinct rotor objects. */
    lemma Separate(c: int)
      requires DistinctNames(allRotors) && 0 <= c < |allRotors|
      ensures forall k | 0 <= k < |allRotors| && k != c :: allRotors[k] != allRotors[c]
    {
      forall k | 0 <= k < |allRotors| && k != c
        ensures allRotors[k] != allRotors[c]
      {
        if k < c {
          assert allRotors[k].name != allRotors[c].name;
        } else {
          assert allRotors[c].name != allRotors[k].name;
        }
      }
    }

    /** set(posn) on catalog rotor c. */
    method SetCatalog(c: nat, posn: int)
      requires DistinctNames(allRotors) && c < |allRotors|
      modifies allRotors[c]
      ensures Settings() == old(Settings())[c := SetValue(allRotors[c].Size(), posn)]
    {
      Separate(c);
      allRotors[c].Set(posn);
    }

    /** set(char) on catalog rotor c. */
    method SetCatalogChar(c: nat, ch: char)
      requires DistinctNames(allRotors) && c < |allRotors|
      modifies allRotors[c]
      ensures Settings() == old(Settings())[c := SetValue(allRotors[c].Size(), allRotors[c].perm.alphabet.ToInt(ch))]
    {
      Separate(c);
      allRotors[c].SetChar(ch);
    }

    /** advance on catalog rotor c. */
    method AdvanceCatalog(c: nat)
      requires DistinctNames(allRotors) && c < |allRotors|
      modifies allRotors[c]
      ensures Settings() == Advanced(old(Settings()), c)
    {
      Separate(c);
      allRotors[c].Advance();
    }

    // -------------------------------------------------------------------
    // insertRotors

    /** The inner loop of insertRotors over the first m catalog rotors: the
        rotors named `name` that are not yet in `sl` are appended. */
    function AddMatching(sl: seq<nat>, name: string, m: nat): seq<nat>
      requires m <= |allRotors|
    {
      if m == 0 then sl
      else
        var s := AddMatching(sl, name, m - 1);
        if allRotors[m - 1].name == name && m - 1 !in s then s + [m - 1] else s
    }

    /** The slot list insertRotors builds from `names`. */
    function Resolve(names: seq<string>): (sl: seq<nat>) {
      if names == [] then []
      else AddMatching(Resolve(names[..|names| - 1]), names[|names| - 1], |allRotors|)
    }

    /** The settings after the rotors of `sl` have been reset to 0. */
    function ResetTo(st: seq<int>, sl: seq<nat>): (r: seq<int>)
      ensures |r| == |st|
    {
      seq(|st|, c requires 0 <= c < |st| => if c in sl then 0 else st[c])
    }

    /** The number of rotating rotors in a slot list. */
    function MovingCount(sl: seq<nat>): nat
      requires SlotsOk(sl)
    {
      if sl == [] then 0
      else MovingCount(sl[..|sl| - 1]) + (if allRotors[sl[|sl| - 1]].Rotates() then 1 else 0)
    }

    /** The number of reflectors in a slot list. */
    function ReflectorCount(sl: seq<nat>): nat
      requires SlotsOk(sl)
    {
      if sl == [] then 0
      else ReflectorCount(sl[..|sl| - 1]) + (if allRotors[sl[|sl| - 1]].Reflecting() then 1 else 0)
    }

    /** The checks insertRotors makes after building the slots. */
    predicate SlotRules(names: seq<string>, sl: seq<nat>)
      requires SlotsOk(sl)
    {
      && MovingCount(sl) <= numPawls
      && ReflectorCount(sl) == 1
      && |sl| > 0 && allRotors[sl[0]].Reflecting()
      && |names| == |sl|
    }

    /** names[0] names a catalog rotor that is not a reflector. */
    predicate FirstNotReflector(names: seq<string>) {
      |names| > 0 && exists c | 0 <= c < |allRotors| :: allRotors[c].name == names[0] && !allRotors[c].Reflecting()
    }

    /** Machine.insertRotors. Its first check fails before anything changes;
        the later checks run after the slots have been rebuilt and the
        inserted rotors reset, so a failure there leaves that state behind. */
    method InsertRotors(names: seq<string>) returns (o: Outcome)
      requires Valid()
      modifies this, allRotors
      ensures Valid() && plugboard == old(plugboard)
      ensures |allRotors| > 0 && |names| == 0 ==>
        && o == Fail(IndexOutOfRange) && slots == old(slots) && hasSlots == old(hasSlots)
        && Settings() == old(Settings())
      ensures !(|allRotors| > 0 && |names| == 0) && FirstNotReflector(names) ==>
        && o == Fail(EnigmaFailure) && slots == old(slots) && hasSlots == old(hasSlots)
        && Settings() == old(Settings())
      ensures !(|allRotors| > 0 && |names| == 0) && !FirstNotReflector(names) ==>
        && hasSlots
        && slots == Resolve(names)
        && Settings() == ResetTo(old(Settings()), slots)
        && (o == Pass <==> SlotRules(names, slots))
        && (o.Fail? ==> o.error == EnigmaFailure)
    {
      for c := 0 to |allRotors|
        invariant c > 0 ==> |names| > 0
        invariant forall d | 0 <= d < c :: allRotors[d].name != names[0] || allRotors[d].Reflecting()
      {
        if |names| == 0 {
          return Fail(IndexOutOfRange);
        }
        if names[0] == allRotors[c].name && !allRotors[c].Reflecting() {
          return Fail(EnigmaFailure);
        }
      }
      slots := [];
      hasSlots := true;
      var sl := ResolveAndReset(names);
      slots := sl;
      o := CheckSlots(names, sl);
    }

    /** The checks of insertRotors on the rebuilt slot list, in order: the
        pawl count, one reflector, the reflector first, every name used. */
    method CheckSlots(names: seq<string>, sl: seq<nat>) returns (o: Outcome)
      requires SlotsOk(sl)
      ensures o == Pass <==> SlotRules(names, sl)
      ensures o.Fail? ==> o.error == EnigmaFailure
    {
      var moving := CountMoving(sl);
      if moving > numPawls {
        return Fail(EnigmaFailure);
      }
      var counter := CountReflectors(sl);
      if counter != 1 {
        return Fail(EnigmaFailure);
      }
      if !allRotors[sl[0]].Reflecting() {
        return Fail(EnigmaFailure);
      }
      if |names| != |sl| {
        return Fail(EnigmaFailure);
      }
      return Pass;
    }

    /** The loops of insertRotors that rebuild the slot list: every catalog
        rotor matching a name, and not yet in the list, is set to 0 and
        appended. */
    method ResolveAndReset(names: seq<string>) returns (sl: seq<nat>)
      requires DistinctNames(allRotors)
      modifies allRotors
      ensures sl == Resolve(names) && SlotsOk(sl)
      ensures Settings() == ResetTo(old(Settings()), sl)
    {
      ghost var st0 := Settings();
      sl := [];
      for a := 0 to |names|
        invariant SlotsOk(sl)
        invariant sl == Resolve(names[..a])
        invariant Settings() == ResetTo(st0, sl)
      {
        assert names[..a + 1][..a] == names[..a];
        sl := AddAndReset(sl, names[a], st0);
      }
      assert names[..|names|] == names;
    }

    /** The inner loop of insertRotors for one name. */
    method AddAndReset(sl0: seq<nat>, name: string, ghost st0: seq<int>) returns (sl: seq<nat>)
      requires DistinctNames(allRotors) && SlotsOk(sl0) && |st0| == |allRotors|
      requires Settings() == ResetTo(st0, sl0)
      modifies allRotors
      ensures sl == AddMatching(sl0, name, |allRotors|) && SlotsOk(sl)
      ensures Settings() == ResetTo(st0, sl)
    {
      sl := sl0;
      for c := 0 to |allRotors|
        invariant SlotsOk(sl)
        invariant sl == AddMatching(sl0, name, c)
        invariant Settings() == ResetTo(st0, sl)
      {
        sl := AddIfMatching(sl, name, c, st0);
      }
    }

    /** One step of that inner loop, at catalog rotor c. */
    method AddIfMatching(sl0: seq<nat>, name: string, c: nat, ghost st0: seq<int>) returns (sl: seq<nat>)
      requires DistinctNames(allRotors) && SlotsOk(sl0) && c < |allRotors| == |st0|
      requires Settings() == ResetTo(st0, sl0)
      modifies allRotors
      ensures sl == if allRotors[c].name == name && c !in sl0 then sl0 + [c] else sl0
      ensures SlotsOk(sl) && Settings() == ResetTo(st0, sl)
    {
      sl := sl0;
      if name == allRotors[c].name && c !in sl {
        SetCatalog(c, 0);
        ResetAppend(st0, sl, c);
        sl := sl + [c];
      }
    }

    /** Resetting one more rotor. */
    lemma ResetAppend(st: seq<int>, sl: seq<nat>, c: nat)
      requires c < |st| == |allRotors|
      ensures ResetTo(st, sl + [c]) == ResetTo(st, sl)[c := SetValue(allRotors[c].Size(), 0)]
    {
      if allRotors[c].Size() > 0 {
        WrapInRange(allRotors[c].Size(), 0);
      }
      var r1 := ResetTo(st, sl + [c]);
      var r2 := ResetTo(st, sl)[c := SetValue(allRotors[c].Size(), 0)];
      forall k | 0 <= k < |st|
        ensures r1[k] == r2[k]
      {
        assert k in sl + [c] <==> k in sl || k == c;
      }
    }

    /** The count of rotating rotors in insertRotors. */
    method CountMoving(sl: seq<nat>) returns (moving: nat)
      requires SlotsOk(sl)
      ensures moving == MovingCount(sl)
    {
      moving := 0;
      for k := 0 to |sl|
        invariant moving == MovingCount(sl[..k])
      {
        assert sl[..k + 1][..k] == sl[..k];
        if allRotors[sl[k]].Rotates() {
          moving := moving + 1;
        }
      }
      assert sl[..|sl|] == sl;
    }

    /** The count of reflectors in insertRotors. */
    method CountReflectors(sl: seq<nat>) returns (counter: nat)
      requires SlotsOk(sl)
      ensures counter == ReflectorCount(sl)
      ensures counter > 0 ==> |sl| > 0
    {
      counter := 0;
      for k := 0 to |sl|
        invariant counter == ReflectorCount(sl[..k])
      {
        assert sl[..k + 1][..k] == sl[..k];
        if allRotors[sl[k]].Reflecting() {
          counter := counter + 1;
        }
      }
      assert sl[..|sl|] == sl;
    }

    // -------------------------------------------------------------------
    // setRotors and setPlugboard

    /** The settings after slots 1 .. m-1 have been set from `setting`,
        slot i from character i-1 in the slot's own alphabet. */
    function Applied(sl: seq<nat>, st: seq<int>, setting: string, m: int): (r: seq<int>)
      requires SlotsOk(sl) && |st| == |allRotors|
      requires 0 <= m <= |sl| && m <= |setting| + 1
      ensures |r| == |st|
    {
      if m <= 1 then st
      else
        var c := sl[m - 1];
        Applied(sl, st, setting, m - 1)[c := SetValue(allRotors[c].Size(), allRotors[c].perm.alphabet.ToInt(setting[m - 2]))]
    }

    /** Machine.setRotors. The length and the characters are checked before
        any rotor is set; a slot list that does not exist yet fails on its
        null reference; a slot list longer than the setting string reaches
        past its end, after the earlier slots have been set. */
    method SetRotors(setting: string) returns (o: Outcome)
      requires Valid()
      modifies allRotors
      ensures |setting| != numRotors - 1 || (exists i | 0 <= i < |setting| :: setting[i] !in alphabet.chars) ==>
        o == Fail(EnigmaFailure) && Settings() == old(Settings())
      ensures |setting| == numRotors - 1 && (forall i | 0 <= i < |setting| :: setting[i] in alphabet.chars) && !hasSlots ==>
        o == Fail(NullReference) && Settings() == old(Settings())
      ensures |setting| == numRotors - 1 && (forall i | 0 <= i < |setting| :: setting[i] in alphabet.chars) && hasSlots ==>
        && Settings() == Applied(slots, old(Settings()), setting, if |slots| <= |setting| + 1 then |slots| else |setting| + 1)
        && (o == Pass <==> |slots| <= |setting| + 1)
        && (o.Fail? ==> o.error == IndexOutOfRange)
    {
      if |setting| != numRotors - 1 {
        return Fail(EnigmaFailure);
      }
      var known := SettingKnown(setting);
      if !known {
        return Fail(EnigmaFailure);
      }
      if !hasSlots {
        return Fail(NullReference);
      }
      o := ApplySettings(setting);
    }

    /** The character check of setRotors: contains, character by character. */
    method SettingKnown(setting: string) returns (known: bool)
      ensures known <==> forall i | 0 <= i < |setting| :: setting[i] in alphabet.chars
    {
      for i := 0 to |setting|
        invariant forall j | 0 <= j < i :: setting[j] in alphabet.chars
      {
        var b := alphabet.Contains(setting[i]);
        if !b {
          return false;
        }
      }
      return true;
    }

    /** The last loop of setRotors: slot i takes character i-1. */
    method ApplySettings(setting: string) returns (o: Outcome)
      requires Valid()
      modifies allRotors
      ensures Settings() == Applied(slots, old(Settings()), setting, if |slots| <= |setting| + 1 then |slots| else |setting| + 1)
      ensures o == Pass <==> |slots| <= |setting| + 1
      ensures o.Fail? ==> o.error == IndexOutOfRange
    {
      ghost var st0 := Settings();
      var sl := slots;
      if |sl| == 0 {
        return Pass;
      }
      for i := 1 to |sl|
        invariant i <= |setting| + 1
        invariant Settings() == Applied(sl, st0, setting, i)
      {
        if i - 1 >= |setting| {
          return Fail(IndexOutOfRange);
        }
        SetCatalogChar(sl[i], setting[i - 1]);
      }
      return Pass;
    }

    /** Machine.setPlugboard. */
    method SetPlugboard(p: Permutation)
      modifies this
      ensures plugboard == Some(p)
      ensures slots == old(slots) && hasSlots == old(hasSlots)
    {
      plugboard := Some(p);
    }

    // -------------------------------------------------------------------
    // Stepping
    //
    // The specification functions below take the slot list `sl` and the
    // plugboard `pb` as values, so that they do not depend on the heap.

    /** The settings after catalog rotor c has been advanced. */
    function Advanced(st: seq<int>, c: int): (r: seq<int>)
      requires 0 <= c < |allRotors| == |st|
      ensures |r| == |st|
    {
      st[c := allRotors[c].AdvancedValue(st[c])]
    }

    /** One pass of the stepping loop at slot i, on settings st: when slot i
        rotates, is at a notch and its left neighbour rotates, the rotor two
        to the left advances if the neighbour is also at a notch and that
        rotor rotates; then the neighbour advances; then slot i advances
        unless it holds the rightmost rotor. */
    function StepSlot(sl: seq<nat>, i: int, st: seq<int>): (r: seq<int>)
      requires Steps(sl) && 1 <= i < |sl| && |st| == |allRotors|
      ensures |r| == |st|
    {
      var cur := allRotors[sl[i]];
      var left := allRotors[sl[i - 1]];
      if cur.Rotates() && cur.NotchAt(st[sl[i]]) && left.Rotates() then
        PairAdvanced(sl, i, st, left.NotchAt(st[sl[i - 1]]) && allRotors[sl[i - 2]].Rotates())
      else st
    }

    /** The settings after the advances of one stepping pass at slot i:
        the rotor two to the left when `far`, the left neighbour, and slot i
        unless it holds the rightmost rotor. */
    function PairAdvanced(sl: seq<nat>, i: int, st: seq<int>, far: bool): (r: seq<int>)
      requires SlotsOk(sl) && 1 <= i < |sl| && |st| == |allRotors|
      requires far ==> i >= 2
      ensures |r| == |st|
    {
      var st1 := if far then Advanced(st, sl[i - 2]) else st;
      var st2 := Advanced(st1, sl[i - 1]);
      if sl[i] != sl[|sl| - 1] then Advanced(st2, sl[i]) else st2
    }

    /** The settings when the stepping loop reaches slot i, every pass from
        the rightmost slot down to slot i + 1 having seen the advances of the
        passes before it. */
    function ScanTo(sl: seq<nat>, i: int, st: seq<int>): (r: seq<int>)
      requires Steps(sl) && 0 <= i < |sl| && |st| == |allRotors|
      ensures |r| == |st|
      decreases |sl| - i
    {
      if i == |sl| - 1 then st else StepSlot(sl, i + 1, ScanTo(sl, i + 1, st))
    }

    /** The settings after the stepping of one convert call: the loop, then
        the rightmost rotor advances. */
    function Step(sl: seq<nat>, st: seq<int>): (r: seq<int>)
      requires Steps(sl) && |st| == |allRotors|
      ensures |r| == |st|
    {
      Advanced(ScanTo(sl, 0, st), sl[|sl| - 1])
    }

    /** The settings after `k` convert calls. */
    function StepTimes(sl: seq<nat>, st: seq<int>, k: nat): (r: seq<int>)
      requires Steps(sl) && |st| == |allRotors|
      ensures |r| == |st|
    {
      if k == 0 then st else Step(sl, StepTimes(sl, st, k - 1))
    }

    // -------------------------------------------------------------------
    // The signal path

    /** The signal after the rotors of slots x .. n-1 have converted v
        forward, right to left, at settings st. */
    function Forwards(sl: seq<nat>, st: seq<int>, x: int, v: int): (r: int)
      requires Conducts(sl) && |st| == |allRotors| && 0 <= x <= |sl|
      decreases |sl| - x
    {
      if x == |sl| then v
      else Forward(allRotors[sl[x]].perm, st[sl[x]], Forwards(sl, st, x + 1, v))
    }

    /** The signal after the rotors of slots 1 .. y-1 have converted v
        backward, left to right, at settings st. */
    function Backwards(sl: seq<nat>, st: seq<int>, y: int, v: int): (r: int)
      requires Conducts(sl) && |st| == |allRotors| && 1 <= y <= |sl|
    {
      if y == 1 then v
      else Backward(allRotors[sl[y - 1]].perm, st[sl[y - 1]], Backwards(sl, st, y - 1, v))
    }

    /** What convert(int) returns once the rotors stand at st: plugboard,
        forward through every slot, back through slots 1 .. n-1, plugboard. */
    function Signal(sl: seq<nat>, pb: Permutation, st: seq<int>, c: int): (r: int)
      requires Conducts(sl) && |sl| > 0 && pb.Size() > 0 && |st| == |allRotors|
    {
      pb.Successor(Backwards(sl, st, |sl|, Forwards(sl, st, 0, pb.Successor(c))))
    }

    /** One pass of the stepping loop of convert(int), at slot i. */
    method StepAt(i: int)
      requires Stepping() && 1 <= i < |slots|
      modifies allRotors
      ensures Settings() == StepSlot(slots, i, old(Settings()))
    {
      var sl := slots;
      var cur := allRotors[sl[i]];
      var left := allRotors[sl[i - 1]];
      if cur.Rotates() {
        var notch := cur.AtNotch();
        if notch && left.Rotates() {
          var leftNotch := left.AtNotch();
          AdvancePair(sl, i, leftNotch && allRotors[sl[i - 2]].Rotates());
        }
      }
    }

    /** The advances of one stepping pass once slot i has been found at a
        notch next to a rotating neighbour; `far` says whether the rotor two
        to the left advances too. */
    method AdvancePair(sl: seq<nat>, i: int, far: bool)
      requires DistinctNames(allRotors) && SlotsOk(sl) && 1 <= i < |sl|
      requires far ==> i >= 2
      modifies allRotors
      ensures Settings() == PairAdvanced(sl, i, old(Settings()), far)
    {
      ghost var st0 := Settings();
      ghost var st1 := if far then Advanced(st0, sl[i - 2]) else st0;
      if far {
        AdvanceCatalog(sl[i - 2]);
      }
      assert Settings() == st1;
      ghost var st2 := Advanced(st1, sl[i - 1]);
      AdvanceCatalog(sl[i - 1]);
      assert Settings() == st2;
      if sl[i] != sl[|sl| - 1] {
        AdvanceCatalog(sl[i]);
        assert Settings() == Advanced(st2, sl[i]);
      }
    }

    /** The stepping of convert(int): the loop from the rightmost slot down
        to slot 1, then the advance of the rightmost rotor. */
    method StepRotors()
      requires Stepping()
      modifies allRotors
      ensures Settings() == Step(slots, old(Settings()))
    {
      ScanSlots();
      AdvanceCatalog(slots[|slots| - 1]);
    }

    /** The loop of the stepping, from the rightmost slot down to slot 1. */
    method ScanSlots()
      requires Stepping()
      modifies allRotors
      ensures Settings() == ScanTo(slots, 0, old(Settings()))
    {
      ghost var st0 := Settings();
      var sl := slots;
      var i := |sl| - 1;
      while i > 0
        invariant 0 <= i <= |sl| - 1
        invariant Settings() == ScanTo(sl, i, st0)
        decreases i
      {
        StepAt(i);
        i := i - 1;
      }
    }

    /** The forward loop of convert(int), slots n-1 down to 0. */
    method ForwardPass(v: int) returns (result: int)
      requires Ready()
      ensures result == Forwards(slots, Settings(), 0, v)
    {
      ghost var st := Settings();
      var sl := slots;
      result := v;
      var x := |sl|;
      while x > 0
        invariant 0 <= x <= |sl|
        invariant result == Forwards(sl, st, x, v)
      {
        x := x - 1;
        var rotor := allRotors[sl[x]];
        assert rotor.setting == st[sl[x]];
        result := rotor.ConvertForward(result);
      }
    }

    /** The backward loop of convert(int), slots 1 up to n-1. */
    method BackwardPass(v: int) returns (result: int)
      requires Ready()
      ensures result == Backwards(slots, Settings(), |slots|, v)
    {
      ghost var st := Settings();
      var sl := slots;
      result := v;
      var y := 1;
      while y < |sl|
        invariant 1 <= y <= |sl|
        invariant result == Backwards(sl, st, y, v)
      {
        var rotor := allRotors[sl[y]];
        assert rotor.setting == st[sl[y]];
        result := rotor.ConvertBackward(result);
        y := y + 1;
      }
    }

    /** Machine.convert(int): step the rotors, then send the signal. */
    method Convert(c: int) returns (r: int)
      requires Ready()
      modifies allRotors
      ensures Settings() == Step(slots, old(Settings()))
      ensures r == Signal(slots, plugboard.value, Settings(), c)
    {
      StepRotors();
      var pb := plugboard.value;
      var result := pb.Permute(c);
      result := ForwardPass(result);
      result := BackwardPass(result);
      r := pb.Permute(result);
    }

    // -------------------------------------------------------------------
    // Messages

    /** What one more character does to a session: nothing once it has
        failed; otherwise the rotors step, the character is looked up with
        toInt (an absent one gives -1) and converted, and toChar either
        appends the result or fails, with the rotors already advanced. */
    function Next(sl: seq<nat>, pb: Permutation, prev: Session, c: char): (s: Session)
      requires Wired(sl, pb) && |prev.settings| == |allRotors|
      ensures |s.settings| == |prev.settings|
    {
      if prev.out.Err? then prev
      else
        var st1 := Step(sl, prev.settings);
        var ch := alphabet.ToChar(Signal(sl, pb, st1, alphabet.ToInt(c)));
        if ch.Err? then Session(Err(ch.error), st1)
        else Session(Ok(prev.out.value + [ch.value]), st1)
    }

    /** What convert(String) does to the message msg, from settings st. */
    function Run(sl: seq<nat>, pb: Permutation, st: seq<int>, msg: string): (s: Session)
      requires Wired(sl, pb) && |st| == |allRotors|
      ensures |s.settings| == |st|
    {
      if msg == [] then Session(Ok([]), st)
      else Next(sl, pb, Run(sl, pb, st, msg[..|msg| - 1]), msg[|msg| - 1])
    }

    /** Once a message prefix has failed, the longer message fails the same way. */
    lemma {:induction false} RunFailed(sl: seq<nat>, pb: Permutation, st: seq<int>, msg: string, k: nat)
      requires Wired(sl, pb) && |st| == |allRotors| && k <= |msg|
      requires Run(sl, pb, st, msg[..k]).out.Err?
      ensures Run(sl, pb, st, msg) == Run(sl, pb, st, msg[..k])
      decreases |msg| - k
    {
      if k < |msg| {
        assert msg[..k + 1][..k] == msg[..k];
        RunFailed(sl, pb, st, msg, k + 1);
      } else {
        assert msg[..k] == msg;
      }
    }

    /** A message one character longer, when the shorter one has not
        failed: the rotors step to st1 and toChar of the signal decides. */
    lemma RunSnoc(sl: seq<nat>, pb: Permutation, st: seq<int>, msg: string, i: nat, st1: seq<int>, o: Result<char>)
      requires Wired(sl, pb) && |st| == |allRotors| && i < |msg|
      requires Run(sl, pb, st, msg[..i]).out.Ok? && st1 == Step(sl, Run(sl, pb, st, msg[..i]).settings)
      requires o == alphabet.ToChar(Signal(sl, pb, st1, alphabet.ToInt(msg[i])))
      ensures Run(sl, pb, st, msg[..i + 1]) == if o.Err? then Session(Err(o.error), st1)
        else Session(Ok(Run(sl, pb, st, msg[..i]).out.value + [o.value]), st1)
    {
      assert msg[..i + 1][..i] == msg[..i];
    }

    /** The body of the loop of convert(String) at position i: toInt,
        convert(int), toChar, and the store into the character array,
        which a failing toChar never reaches. */
    method ConvertInto(msgArray: array<char>, msg: string, i: nat) returns (o: Result<char>)
      requires Ready() && i < |msg| == msgArray.Length
      modifies allRotors, msgArray
      ensures Settings() == Step(slots, old(Settings()))
      ensures o == alphabet.ToChar(Signal(slots, plugboard.value, Settings(), alphabet.ToInt(msg[i])))
      ensures o.Ok? ==> msgArray[..i + 1] == old(msgArray[..i]) + [o.value]
    {
      var charIndex := alphabet.ToInt(msg[i]);
      var converted := Convert(charIndex);
      o := alphabet.ToChar(converted);
      if o.Err? {
        return;
      }
      ghost var st1 := Settings();
      ghost var prefix := msgArray[..i];
      msgArray[i] := o.value;
      assert Settings() == st1;
      assert msgArray[..i + 1] == prefix + [o.value] by {
        assert forall j | 0 <= j < i :: msgArray[j] == prefix[j];
      }
    }

    /** Machine.convert(String): the characters left to right, each through
        convert(int), into a character array. */
    method ConvertMessage(msg: string) returns (r: Result<string>)
      requires Ready()
      modifies allRotors
      ensures Session(r, Settings()) == Run(slots, plugboard.value, old(Settings()), msg)
    {
      ghost var st0 := Settings();
      ghost var sl := slots;
      ghost var pb := plugboard.value;
      ghost var sess := Session(Ok([]), st0);
      var msgArray := new char[|msg|];
      for i := 0 to |msg|
        invariant sess == Run(sl, pb, st0, msg[..i])
        invariant sess.out == Ok(msgArray[..i])
        invariant sess.settings == Settings()
      {
        var convertedChar := ConvertInto(msgArray, msg, i);
        RunSnoc(sl, pb, st0, msg, i, Settings(), convertedChar);
        if convertedChar.Err? {
          RunFailed(sl, pb, st0, msg, i + 1);
          return Err(convertedChar.error);
        }
        sess := Session(Ok(sess.out.value + [convertedChar.value]), Settings());
      }
      assert msg[..|msg|] == msg;
      assert msgArray[..] == msgArray[..|msg|];
      return Ok(msgArray[..]);
    }
  }

  /** The Machine constructor with its checks: more than one slot, a pawl
      count in [0, numRotors), and no two catalog rotors with one name. */
  method NewMachine(alpha: Alphabet, numRotors: int, pawls: int, allRotors: seq<Rotor>) returns (r: Result<Machine>)
    ensures r.Ok? <==> 1 < numRotors && 0 <= pawls < numRotors && DistinctNames(allRotors)
    ensures r.Err? ==> r.error == EnigmaFailure
    ensures r.Ok? ==> r.value.Valid() && r.value.alphabet == alpha && r.value.numRotors == numRotors
    ensures r.Ok? ==> r.value.numPawls == pawls && r.value.allRotors == allRotors
    ensures r.Ok? ==> r.value.slots == [] && !r.value.hasSlots && r.value.plugboard == None
  {
    if numRotors <= 1 {
      return Err(EnigmaFailure);
    }
    if pawls < 0 {
      return Err(EnigmaFailure);
    }
    if numRotors <= pawls {
      return Err(EnigmaFailure);
    }
    for x := 0 to |allRotors|
      invariant forall x', y | 0 <= x' < x && x' < y < |allRotors| :: allRotors[x'].name != allRotors[y].name
    {
      for y := x + 1 to |allRotors|
        invariant forall y' | x < y' < y :: allRotors[x].name != allRotors[y'].name
      {
        if allRotors[x].name == allRotors[y].name {
          return Err(EnigmaFailure);
        }
      }
    }
    var m := new Machine(alpha, numRotors, pawls, allRotors);
    return Ok(m);
  }
}
