/** What the machine's stepping, signal path, message conversion and slot
    bookkeeping guarantee, stated over the specification functions of
    Machine. */
module MachineProperties {
  import opened Errors
  import opened Alphabets
  import opened Permutations
  import opened Rotors
  import opened Machines

  // ---------------------------------------------------------------------
  // Stepping

  /** A rotor the stepping leaves alone: one outside the slots, or one that
      cannot rotate, or the rightmost one during the loop. */
  predicate Untouched(m: Machine, sl: seq<nat>, c: int)
    requires |sl| > 0 && 0 <= c < |m.allRotors|
  {
    c !in sl || c == sl[|sl| - 1] || !m.allRotors[c].Rotates()
  }

  /** One pass of the loop leaves an untouched rotor where it was. */
  lemma StepSlotKeeps(m: Machine, sl: seq<nat>, i: int, st: seq<int>, c: int)
    requires m.Steps(sl) && 1 <= i < |sl| && |st| == |m.allRotors|
    requires 0 <= c < |st| && Untouched(m, sl, c)
    ensures m.StepSlot(sl, i, st)[c] == st[c]
  {
    assert sl[i - 1] != sl[|sl| - 1];
    assert i >= 2 ==> sl[i - 2] != sl[|sl| - 1];
  }

  /** So does the whole loop, down to any slot. */
  lemma {:induction false} ScanKeeps(m: Machine, sl: seq<nat>, i: int, st: seq<int>, c: int)
    requires m.Steps(sl) && 0 <= i < |sl| && |st| == |m.allRotors|
    requires 0 <= c < |st| && Untouched(m, sl, c)
    ensures m.ScanTo(sl, i, st)[c] == st[c]
    decreases |sl| - i
  {
    if i < |sl| - 1 {
      ScanKeeps(m, sl, i + 1, st, c);
      StepSlotKeeps(m, sl, i + 1, m.ScanTo(sl, i + 1, st), c);
    }
  }

  /** One convert call moves no rotor outside the slots and no rotor that
      cannot rotate; in particular a reflector in slot 0 never moves. */
  lemma StepFrame(m: Machine, sl: seq<nat>, st: seq<int>, c: int)
    requires m.Steps(sl) && |st| == |m.allRotors| && 0 <= c < |st|
    requires c !in sl || !m.allRotors[c].Rotates()
    ensures m.Step(sl, st)[c] == st[c]
  {
    ScanKeeps(m, sl, 0, st, c);
  }

  lemma SlotZeroStill(m: Machine, sl: seq<nat>, st: seq<int>)
    requires m.Steps(sl) && |st| == |m.allRotors|
    ensures m.Step(sl, st)[sl[0]] == st[sl[0]]
  {
    StepFrame(m, sl, st, sl[0]);
  }

  /** One convert call advances the rightmost rotor exactly once. */
  lemma StepRightmost(m: Machine, sl: seq<nat>, st: seq<int>)
    requires m.Steps(sl) && |st| == |m.allRotors|
    ensures var r := sl[|sl| - 1];
      m.Step(sl, st)[r] == m.allRotors[r].AdvancedValue(st[r])
  {
    ScanKeeps(m, sl, 0, st, sl[|sl| - 1]);
  }

  /** After k convert calls the rightmost rotor has advanced k times. */
  lemma {:induction false} StepTimesRightmost(m: Machine, sl: seq<nat>, st: seq<int>, k: nat)
    requires m.Steps(sl) && |st| == |m.allRotors|
    ensures var r := sl[|sl| - 1];
      m.StepTimes(sl, st, k)[r] == AdvancedTimes(m.allRotors[r], st[r], k)
  {
    if k > 0 {
      StepTimesRightmost(m, sl, st, k - 1);
      StepRightmost(m, sl, m.StepTimes(sl, st, k - 1));
    }
  }

  /** A moving rightmost rotor over a non-empty alphabet stands at its
      starting setting plus k, modulo the size, after k convert calls. */
  lemma RightmostCounts(m: Machine, sl: seq<nat>, st: seq<int>, k: nat)
    requires m.Steps(sl) && |st| == |m.allRotors| && k > 0
    requires var r := m.allRotors[sl[|sl| - 1]]; r.kind.Moving? && r.Size() > 0
    ensures var c := sl[|sl| - 1];
      m.StepTimes(sl, st, k)[c] == Wrap(m.allRotors[c].Size(), st[c] + k)
  {
    var c := sl[|sl| - 1];
    StepTimesRightmost(m, sl, st, k);
    AdvanceCounts(m.allRotors[c], st[c], k);
  }

  /** No slot at a notch: the loop changes nothing. */
  lemma {:induction false} ScanQuiet(m: Machine, sl: seq<nat>, i: int, st: seq<int>)
    requires m.Steps(sl) && 0 <= i < |sl| && |st| == |m.allRotors|
    requires forall j | 0 <= j < |sl| :: !m.allRotors[sl[j]].NotchAt(st[sl[j]])
    ensures m.ScanTo(sl, i, st) == st
    decreases |sl| - i
  {
    if i < |sl| - 1 {
      ScanQuiet(m, sl, i + 1, st);
    }
  }

  /** When no rotor in the slots is at a notch, only the rightmost rotor
      advances. */
  lemma StepQuiet(m: Machine, sl: seq<nat>, st: seq<int>)
    requires m.Steps(sl) && |st| == |m.allRotors|
    requires forall j | 0 <= j < |sl| :: !m.allRotors[sl[j]].NotchAt(st[sl[j]])
    ensures m.Step(sl, st) == m.Advanced(st, sl[|sl| - 1])
  {
    ScanQuiet(m, sl, 0, st);
  }

  /** Three rotating rotors L, M, R to the right of the reflector. */
  predicate FourSlots(m: Machine, sl: seq<nat>) {
    && m.Steps(sl) && |sl| == 4
    && m.allRotors[sl[1]].Rotates() && m.allRotors[sl[2]].Rotates() && m.allRotors[sl[3]].Rotates()
  }

  /** The double step: with R not at its notch and M at its notch, one
      convert call advances L, M and R together, each once. */
  lemma DoubleStep(m: Machine, sl: seq<nat>, st: seq<int>)
    requires FourSlots(m, sl) && |st| == |m.allRotors|
    requires !m.allRotors[sl[3]].NotchAt(st[sl[3]])
    requires m.allRotors[sl[2]].NotchAt(st[sl[2]])
    ensures m.Step(sl, st) == m.Advanced(m.Advanced(m.Advanced(st, sl[1]), sl[2]), sl[3])
  {
    assert m.ScanTo(sl, 2, st) == st;
    var st1 := m.Advanced(m.Advanced(st, sl[1]), sl[2]);
    assert m.ScanTo(sl, 1, st) == st1;
    assert m.ScanTo(sl, 0, st) == st1;
  }

  /** In the same configuration every other catalog rotor stays put. */
  lemma DoubleStepOthers(m: Machine, sl: seq<nat>, st: seq<int>, c: int)
    requires FourSlots(m, sl) && |st| == |m.allRotors|
    requires !m.allRotors[sl[3]].NotchAt(st[sl[3]])
    requires m.allRotors[sl[2]].NotchAt(st[sl[2]])
    requires 0 <= c < |st| && c != sl[1] && c != sl[2] && c != sl[3]
    ensures m.Step(sl, st)[c] == st[c]
  {
    DoubleStep(m, sl, st);
  }

  /** As the loop is written, a pass sees the advances of the passes to its
      right: when R is at its notch and M reaches its notch by the advance
      that R's pass gives it, M's own pass advances M again and L, so one
      convert call moves M twice and L and R once. */
  lemma StepCascade(m: Machine, sl: seq<nat>, st: seq<int>)
    requires FourSlots(m, sl) && |st| == |m.allRotors|
    requires m.allRotors[sl[3]].NotchAt(st[sl[3]])
    requires !m.allRotors[sl[2]].NotchAt(st[sl[2]])
    requires m.allRotors[sl[2]].NotchAt(m.allRotors[sl[2]].AdvancedValue(st[sl[2]]))
    ensures m.Step(sl, st) == m.Advanced(m.Advanced(m.Advanced(m.Advanced(st, sl[2]), sl[1]), sl[2]), sl[3])
  {
    var st1 := m.Advanced(st, sl[2]);
    assert m.ScanTo(sl, 2, st) == st1;
    var st2 := m.Advanced(m.Advanced(st1, sl[1]), sl[2]);
    assert m.ScanTo(sl, 1, st) == st2;
    assert m.ScanTo(sl, 0, st) == st2;
  }

  // ---------------------------------------------------------------------
  // The signal path

  /** Every rotor in the slots has a well-formed permutation over an
      alphabet of n symbols. */
  predicate Uniform(m: Machine, sl: seq<nat>, n: nat) {
    && m.Conducts(sl)
    && forall i | 0 <= i < |sl| :: m.allRotors[sl[i]].Size() == n && m.allRotors[sl[i]].perm.WellFormed()
  }

  /** The reflector's permutation in slot 0. */
  function SlotZero(m: Machine, sl: seq<nat>): Permutation
    requires m.SlotsOk(sl) && |sl| > 0
  {
    m.allRotors[sl[0]].perm
  }

  /** A plugboard, or a reflector, that pairs symbols: every cycle has at
      most two. */
  predicate Pairs(p: Permutation) {
    p.WellFormed() && forall k | 0 <= k < |p.cycles| :: |p.cycles[k]| <= 2
  }

  /** The forward pass through slots x .. n-1 keeps a signal in the
      alphabet. */
  lemma ForwardsInRange(m: Machine, sl: seq<nat>, st: seq<int>, n: nat, x: int, v: int)
    requires Uniform(m, sl, n) && |st| == |m.allRotors| && 0 <= x <= |sl| && 0 <= v < n
    ensures 0 <= m.Forwards(sl, st, x, v) < n
  {
  }

  /** So does the backward pass through slots 1 .. y-1. */
  lemma BackwardsInRange(m: Machine, sl: seq<nat>, st: seq<int>, n: nat, y: int, v: int)
    requires Uniform(m, sl, n) && |st| == |m.allRotors| && 1 <= y <= |sl| && 0 <= v < n
    ensures 0 <= m.Backwards(sl, st, y, v) < n
  {
  }

  /** From slot 0 the forward pass lands in the alphabet whatever enters. */
  lemma ForwardsWraps(m: Machine, sl: seq<nat>, st: seq<int>, n: nat, v: int)
    requires Uniform(m, sl, n) && |st| == |m.allRotors| && |sl| > 0
    ensures 0 <= m.Forwards(sl, st, 0, v) < n
  {
  }

  /** The backward pass undoes the forward pass, slot by slot: after the
      forward pass through slots 1 .. n-1, going back through slots
      1 .. y-1 leaves the signal the forward pass had at slot y. */
  lemma {:induction false} BackwardsUndoForwards(m: Machine, sl: seq<nat>, st: seq<int>, n: nat, y: int, v: int)
    requires Uniform(m, sl, n) && |st| == |m.allRotors| && n > 0
    requires 1 <= y <= |sl| && 0 <= v < n
    ensures m.Backwards(sl, st, y, m.Forwards(sl, st, 1, v)) == m.Forwards(sl, st, y, v)
  {
    if y > 1 {
      BackwardsUndoForwards(m, sl, st, n, y - 1, v);
      ForwardsInRange(m, sl, st, n, y, v);
      var r := m.allRotors[sl[y - 1]];
      BackwardForward(r.perm, st[sl[y - 1]], m.Forwards(sl, st, y, v));
    }
  }

  /** The forward pass undoes the backward pass: going forward through
      slots n-1 .. 1 after the backward pass through slots 1 .. n-1
      gives back the signal that entered. */
  lemma ForwardsUndoBackwards(m: Machine, sl: seq<nat>, st: seq<int>, n: nat, w: int)
    requires Uniform(m, sl, n) && |st| == |m.allRotors| && n > 0
    requires |sl| > 0 && 0 <= w < n
    ensures m.Forwards(sl, st, 1, m.Backwards(sl, st, |sl|, w)) == w
  {
    ForwardsUndoFrom(m, sl, st, n, |sl| - 1, w);
  }

  /** The induction behind it, counted from the right: forward through
      the last k slots after the whole backward pass leaves the signal the
      backward pass had before slot n-k. */
  lemma {:induction false} ForwardsUndoFrom(m: Machine, sl: seq<nat>, st: seq<int>, n: nat, k: nat, w: int)
    requires Uniform(m, sl, n) && |st| == |m.allRotors| && n > 0
    requires k < |sl| && 0 <= w < n
    ensures m.Forwards(sl, st, |sl| - k, m.Backwards(sl, st, |sl|, w)) == m.Backwards(sl, st, |sl| - k, w)
  {
    if k > 0 {
      ForwardsUndoFrom(m, sl, st, n, k - 1, w);
      ForwardUndoesBackward(m, sl, st, n, |sl| - k, w, m.Backwards(sl, st, |sl|, w));
    }
  }

  /** One slot of ForwardsUndoFrom: the forward conversion at slot x
      undoes the backward conversion there. */
  lemma ForwardUndoesBackward(m: Machine, sl: seq<nat>, st: seq<int>, n: nat, x: int, w: int, bn: int)
    requires Uniform(m, sl, n) && |st| == |m.allRotors| && n > 0
    requires 1 <= x < |sl| && 0 <= w < n
    requires m.Forwards(sl, st, x + 1, bn) == m.Backwards(sl, st, x + 1, w)
    ensures m.Forwards(sl, st, x, bn) == m.Backwards(sl, st, x, w)
  {
    var r := m.allRotors[sl[x]];
    BackwardsInRange(m, sl, st, n, x, w);
    ForwardBackward(r.perm, st[sl[x]], m.Backwards(sl, st, x, w));
  }

  /** Whatever index enters, convert(int) returns an index of the
      alphabet: the forward pass wraps it into range. */
  lemma SignalInRange(m: Machine, sl: seq<nat>, pb: Permutation, st: seq<int>, c: int)
    requires Uniform(m, sl, pb.Size()) && |sl| > 0 && pb.WellFormed() && pb.Size() > 0
    requires |st| == |m.allRotors|
    ensures 0 <= m.Signal(sl, pb, st, c) < pb.Size()
  {
    var n := pb.Size();
    var u := m.Forwards(sl, st, 0, pb.Successor(c));
    ForwardsWraps(m, sl, st, n, pb.Successor(c));
    BackwardsInRange(m, sl, st, n, |sl|, u);
    SuccessorInRange(pb, m.Backwards(sl, st, |sl|, u));
  }

  /** The names of the stages of the signal path for the index c. */
  lemma SignalStages(m: Machine, sl: seq<nat>, pb: Permutation, st: seq<int>, c: int)
    returns (a: int, u: int, w: int, b: int)
    requires Uniform(m, sl, pb.Size()) && |sl| > 0 && pb.WellFormed() && pb.Size() > 0
    requires |st| == |m.allRotors| && 0 <= c < pb.Size()
    ensures a == pb.Successor(c) && 0 <= a < pb.Size()
    ensures u == m.Forwards(sl, st, 1, a) && 0 <= u < pb.Size()
    ensures w == Forward(SlotZero(m, sl), st[sl[0]], u) && w == m.Forwards(sl, st, 0, a)
    ensures b == m.Backwards(sl, st, |sl|, w) && 0 <= b < pb.Size()
    ensures m.Signal(sl, pb, st, c) == pb.Successor(b)
  {
    var n := pb.Size();
    a := pb.Successor(c);
    SuccessorInRange(pb, c);
    u := m.Forwards(sl, st, 1, a);
    ForwardsInRange(m, sl, st, n, 1, a);
    w := m.Forwards(sl, st, 0, a);
    ForwardsInRange(m, sl, st, n, 0, a);
    b := m.Backwards(sl, st, |sl|, w);
    BackwardsInRange(m, sl, st, n, |sl|, w);
  }

  /** Reciprocity: with a plugboard and a reflector that pair symbols, and
      every rotor over the same alphabet, converting the output of convert
      at the same settings gives back the input. */
  lemma Reciprocal(m: Machine, sl: seq<nat>, pb: Permutation, st: seq<int>, c: int)
    requires Uniform(m, sl, pb.Size()) && |sl| > 0 && pb.Size() > 0
    requires Pairs(pb) && Pairs(SlotZero(m, sl))
    requires |st| == |m.allRotors| && 0 <= c < pb.Size()
    ensures m.Signal(sl, pb, st, m.Signal(sl, pb, st, c)) == c
  {
    var n := pb.Size();
    var a, u, w, b := SignalStages(m, sl, pb, st, c);
    var d := m.Signal(sl, pb, st, c);
    Involution(pb, b);
    // d enters as b: the plugboard undoes itself
    var a2, u2, w2, b2 := SignalStages(m, sl, pb, st, d);
    assert a2 == b;
    ForwardsUndoBackwards(m, sl, st, n, w);
    assert u2 == w;
    ForwardInvolution(SlotZero(m, sl), st[sl[0]], u);
    assert w2 == u;
    BackwardsUndoForwards(m, sl, st, n, |sl|, a);
    assert b2 == a;
    Involution(pb, c);
  }

  /** A forward conversion at any setting has no fixed point when the
      permutation has none. */
  lemma ForwardNoFixedPoint(perm: Permutation, s: int, p: int)
    requires perm.WellFormed() && 0 <= p < perm.Size()
    requires forall q | 0 <= q < perm.Size() :: perm.Successor(q) != q
    ensures Forward(perm, s, p) != p
  {
    ForwardFixedPoint(perm, s, p);
  }

  /** No index converts to itself when the reflector's permutation moves
      every symbol. */
  lemma NoSelfImage(m: Machine, sl: seq<nat>, pb: Permutation, st: seq<int>, c: int)
    requires Uniform(m, sl, pb.Size()) && |sl| > 0 && pb.Size() > 0 && Pairs(pb)
    requires forall q | 0 <= q < pb.Size() :: SlotZero(m, sl).Successor(q) != q
    requires |st| == |m.allRotors| && 0 <= c < pb.Size()
    ensures m.Signal(sl, pb, st, c) != c
  {
    var n := pb.Size();
    var a, u, w, b := SignalStages(m, sl, pb, st, c);
    ForwardNoFixedPoint(SlotZero(m, sl), st[sl[0]], u);
    Involution(pb, b);
    Involution(pb, c);
    ForwardsUndoBackwards(m, sl, st, n, w);
    assert m.Forwards(sl, st, 1, b) == w;
  }

  // ---------------------------------------------------------------------
  // insertRotors: resolving names against the catalog

  /** Some catalog rotor is called `name`. */
  predicate Known(m: Machine, name: string) {
    exists c | 0 <= c < |m.allRotors| :: m.allRotors[c].name == name
  }

  /** Every name names a catalog rotor. */
  predicate AllKnown(m: Machine, names: seq<string>) {
    forall i | 0 <= i < |names| :: Known(m, names[i])
  }

  /** With distinct catalog names, the inner loop for `name` appends the one
      rotor called `name` when it has reached it and it is not yet in the
      list, and otherwise leaves the list alone. */
  lemma {:induction false} AddMatchingOne(m: Machine, sl: seq<nat>, name: string, k: nat, c: int)
    requires DistinctNames(m.allRotors) && k <= |m.allRotors|
    requires 0 <= c < |m.allRotors| && m.allRotors[c].name == name
    ensures m.AddMatching(sl, name, k) == if c < k && c !in sl then sl + [c] else sl
  {
    if k > 0 {
      AddMatchingOne(m, sl, name, k - 1, c);
      if k - 1 < c {
        assert m.allRotors[k - 1].name != m.allRotors[c].name;
      } else if k - 1 > c {
        assert m.allRotors[c].name != m.allRotors[k - 1].name;
      }
    }
  }

  /** The inner loop for a name no catalog rotor has appends nothing. */
  lemma {:induction false} AddMatchingNone(m: Machine, sl: seq<nat>, name: string, k: nat)
    requires k <= |m.allRotors| && !Known(m, name)
    ensures m.AddMatching(sl, name, k) == sl
  {
    if k > 0 {
      AddMatchingNone(m, sl, name, k - 1);
      assert m.allRotors[k - 1].name != name;
    }
  }

  /** What insertRotors puts in the slots: a catalog rotor is inserted
      exactly when one of the names names it, never twice, and unknown
      names are skipped; so there are as many slots as names exactly when
      every name is known and no name repeats, and then slot i holds the
      rotor called names[i]. */
  lemma {:induction false} ResolveFacts(m: Machine, names: seq<string>)
    requires DistinctNames(m.allRotors)
    ensures var r := m.Resolve(names);
      && m.SlotsOk(r)
      && |r| <= |names|
      && (forall c | 0 <= c < |m.allRotors| :: c in r <==> m.allRotors[c].name in names)
      && (|r| == |names| <==> AllKnown(m, names) && DistinctStrings(names))
      && (|r| == |names| ==> forall i | 0 <= i < |r| :: m.allRotors[r[i]].name == names[i])
  {
    if names != [] {
      var init := names[..|names| - 1];
      var x := names[|names| - 1];
      assert names == init + [x];
      ResolveFacts(m, init);
      var r0 := m.Resolve(init);
      var r := m.Resolve(names);
      if Known(m, x) {
        var c :| 0 <= c < |m.allRotors| && m.allRotors[c].name == x;
        AddMatchingOne(m, r0, x, |m.allRotors|, c);
        assert c in r0 <==> x in init;
      } else {
        AddMatchingNone(m, r0, x, |m.allRotors|);
        assert !AllKnown(m, names) by {
          assert !Known(m, names[|names| - 1]);
        }
      }
      KnownSplit(m, init, x);
      DistinctSplit(init, x);
    }
  }

  /** All names known, split at the last name. */
  lemma KnownSplit(m: Machine, init: seq<string>, x: string)
    ensures AllKnown(m, init + [x]) <==> AllKnown(m, init) && Known(m, x)
  {
    var names := init + [x];
    if AllKnown(m, names) {
      assert Known(m, names[|init|]);
      forall i | 0 <= i < |init| ensures Known(m, init[i]) {
        assert names[i] == init[i];
      }
    }
  }

  /** Distinct names, split at the last name. */
  lemma DistinctSplit(init: seq<string>, x: string)
    ensures DistinctStrings(init + [x]) <==> DistinctStrings(init) && x !in init
  {
    var names := init + [x];
    if x in init {
      var i :| 0 <= i < |init| && init[i] == x;
      assert names[i] == names[|init|];
    }
    if DistinctStrings(names) {
      forall i, j | 0 <= i < j < |init| ensures init[i] != init[j] {
        assert names[i] != names[j];
      }
    }
  }

  // ---------------------------------------------------------------------
  // setRotors: where the settings go

  /** After the loop of setRotors has set slots 1 .. k-1, slot i stands at
      the setting named by character i-1, and every rotor not in those
      slots, slot 0's among them, keeps its setting. */
  lemma {:induction false} AppliedSlots(m: Machine, sl: seq<nat>, st: seq<int>, setting: string, k: int)
    requires m.SlotsOk(sl) && |st| == |m.allRotors|
    requires 0 <= k <= |sl| && k <= |setting| + 1
    ensures forall i | 1 <= i < k ::
      m.Applied(sl, st, setting, k)[sl[i]] ==
        SetValue(m.allRotors[sl[i]].Size(), m.allRotors[sl[i]].perm.alphabet.ToInt(setting[i - 1]))
    ensures forall c | 0 <= c < |st| && (forall i | 1 <= i < k :: sl[i] != c) :: m.Applied(sl, st, setting, k)[c] == st[c]
  {
    if k > 1 {
      AppliedSlots(m, sl, st, setting, k - 1);
    }
  }

  /** setRotors never changes the setting of the rotor in slot 0. */
  lemma AppliedSlotZero(m: Machine, sl: seq<nat>, st: seq<int>, setting: string, k: int)
    requires m.SlotsOk(sl) && |st| == |m.allRotors| && |sl| > 0
    requires 0 <= k <= |sl| && k <= |setting| + 1
    ensures m.Applied(sl, st, setting, k)[sl[0]] == st[sl[0]]
  {
    AppliedSlots(m, sl, st, setting, k);
  }

  // ---------------------------------------------------------------------
  // convert(String)

  /** A converted message, when conversion succeeds, is as long as the
      message. */
  lemma {:induction false} RunLength(m: Machine, sl: seq<nat>, pb: Permutation, st: seq<int>, msg: string)
    requires m.Wired(sl, pb) && |st| == |m.allRotors|
    ensures m.Run(sl, pb, st, msg).out.Ok? ==> |m.Run(sl, pb, st, msg).out.value| == |msg|
  {
    if msg != [] {
      RunLength(m, sl, pb, st, msg[..|msg| - 1]);
    }
  }

  /** A machine whose rotors and plugboard all work over the machine's own
      alphabet converts every message, character by character, without
      failing; after a message of length k the rotors have stepped k
      times. Characters outside the alphabet are not rejected: toInt gives
      -1 for them, and the signal path wraps it. */
  lemma {:induction false} RunTotal(m: Machine, sl: seq<nat>, pb: Permutation, st: seq<int>, msg: string)
    requires m.Wired(sl, pb) && Uniform(m, sl, pb.Size()) && pb.WellFormed()
    requires m.alphabet.Size() == pb.Size() && |st| == |m.allRotors|
    ensures m.Run(sl, pb, st, msg).out.Ok?
    ensures |m.Run(sl, pb, st, msg).out.value| == |msg|
    ensures m.Run(sl, pb, st, msg).settings == m.StepTimes(sl, st, |msg|)
  {
    if msg != [] {
      var init := msg[..|msg| - 1];
      RunTotal(m, sl, pb, st, init);
      var st1 := m.Step(sl, m.Run(sl, pb, st, init).settings);
      SignalInRange(m, sl, pb, st1, m.alphabet.ToInt(msg[|msg| - 1]));
    }
  }

  /** One character of the round trip: the character the ciphertext
      holds converts back, at the same settings, to the plaintext character. */
  lemma ReciprocalChar(m: Machine, sl: seq<nat>, pb: Permutation, st: seq<int>, x: char)
    requires m.Wired(sl, pb) && Uniform(m, sl, pb.Size()) && Pairs(pb) && Pairs(SlotZero(m, sl))
    requires Distinct(m.alphabet.chars) && m.alphabet.Size() == pb.Size() && |st| == |m.allRotors|
    requires x in m.alphabet.chars
    ensures var y := m.alphabet.ToChar(m.Signal(sl, pb, st, m.alphabet.ToInt(x)));
      y.Ok? && m.alphabet.ToChar(m.Signal(sl, pb, st, m.alphabet.ToInt(y.value))) == Ok(x)
  {
    var c := m.alphabet.ToInt(x);
    var d := m.Signal(sl, pb, st, c);
    SignalInRange(m, sl, pb, st, c);
    ToIntToChar(m.alphabet, d);
    Reciprocal(m, sl, pb, st, c);
    ToCharToInt(m.alphabet, x);
  }

  /** A message one character longer, when the shorter one has not failed
      and toChar of the signal gives y: y is appended and the rotors have
      stepped once more. */
  lemma RunStep(m: Machine, sl: seq<nat>, pb: Permutation, st: seq<int>, init: string, x: char, y: char)
    requires m.Wired(sl, pb) && |st| == |m.allRotors|
    requires m.Run(sl, pb, st, init).out.Ok?
    requires m.alphabet.ToChar(m.Signal(sl, pb, m.Step(sl, m.Run(sl, pb, st, init).settings), m.alphabet.ToInt(x))) == Ok(y)
    ensures m.Run(sl, pb, st, init + [x]) ==
      Session(Ok(m.Run(sl, pb, st, init).out.value + [y]), m.Step(sl, m.Run(sl, pb, st, init).settings))
  {
    assert (init + [x])[..|init|] == init;
  }

  /** Reciprocity for messages: with a plugboard and a reflector that pair
      symbols and every rotor over the machine's alphabet, converting the
      ciphertext of a message from the same starting settings gives back the
      message, and leaves the rotors where the encryption left them. */
  lemma {:induction false} RunReciprocal(m: Machine, sl: seq<nat>, pb: Permutation, st: seq<int>, msg: string)
    requires m.Wired(sl, pb) && Uniform(m, sl, pb.Size()) && Pairs(pb) && Pairs(SlotZero(m, sl))
    requires Distinct(m.alphabet.chars) && m.alphabet.Size() == pb.Size() && |st| == |m.allRotors|
    requires forall i | 0 <= i < |msg| :: msg[i] in m.alphabet.chars
    ensures m.Run(sl, pb, st, msg).out.Ok?
    ensures m.Run(sl, pb, st, m.Run(sl, pb, st, msg).out.value) == Session(Ok(msg), m.Run(sl, pb, st, msg).settings)
  {
    if msg != [] {
      var init := msg[..|msg| - 1];
      var x := msg[|msg| - 1];
      assert msg == init + [x];
      RunReciprocal(m, sl, pb, st, init);
      var s0 := m.Run(sl, pb, st, init);
      var st1 := m.Step(sl, s0.settings);
      ReciprocalChar(m, sl, pb, st1, x);
      var y := m.alphabet.ToChar(m.Signal(sl, pb, st1, m.alphabet.ToInt(x))).value;
      RunStep(m, sl, pb, st, init, x, y);
      RunStep(m, sl, pb, st, s0.out.value, y, x);
    }
  }

  /** Two catalogs built from one configuration: rotor by rotor the same
      name, permutation and kind, whether or not they are the same objects. */
  predicate SameCatalog(m1: Machine, m2: Machine) {
    && |m1.allRotors| == |m2.allRotors|
    && forall c | 0 <= c < |m1.allRotors| ::
      && m1.allRotors[c].name == m2.allRotors[c].name
      && m1.allRotors[c].perm == m2.allRotors[c].perm
      && m1.allRotors[c].kind == m2.allRotors[c].kind
  }

  /** Determinism: two machines built separately from the same alphabet and
      catalog configuration, with the same slot list, plugboard and starting
      settings, turn the same message into the same output and leave their
      rotors at the same settings. */
  lemma RunDeterministic(m1: Machine, m2: Machine, sl: seq<nat>, pb: Permutation, st: seq<int>, msg: string)
    requires SameCatalog(m1, m2) && m1.alphabet == m2.alphabet
    requires m1.Wired(sl, pb) && |st| == |m1.allRotors|
    ensures m2.Wired(sl, pb)
    ensures m1.Run(sl, pb, st, msg) == m2.Run(sl, pb, st, msg)
  {
    RunSame(m1, m2, sl, pb, st, msg);
  }

  lemma {:induction false} RunSame(m1: Machine, m2: Machine, sl: seq<nat>, pb: Permutation, st: seq<int>, msg: string)
    requires SameCatalog(m1, m2) && m1.alphabet == m2.alphabet
    requires m1.Wired(sl, pb) && |st| == |m1.allRotors|
    ensures m2.Wired(sl, pb)
    ensures m1.Run(sl, pb, st, msg) == m2.Run(sl, pb, st, msg)
  {
    if msg != [] {
      RunSame(m1, m2, sl, pb, st, msg[..|msg| - 1]);
      var s := m1.Run(sl, pb, st, msg[..|msg| - 1]);
      StepSame(m1, m2, sl, s.settings);
      var st1 := m1.Step(sl, s.settings);
      var v := pb.Successor(m1.alphabet.ToInt(msg[|msg| - 1]));
      ConductsSame(m1, m2, sl);
      ForwardsSame(m1, m2, sl, st1, 0, v);
      BackwardsSame(m1, m2, sl, st1, |sl|, m1.Forwards(sl, st1, 0, v));
    }
  }

  /** Advancing catalog rotor c means the same in both machines. */
  lemma AdvancedSame(m1: Machine, m2: Machine, st: seq<int>, c: int)
    requires SameCatalog(m1, m2) && 0 <= c < |m1.allRotors| == |st|
    ensures m1.Advanced(st, c) == m2.Advanced(st, c)
  {
    assert m1.allRotors[c].kind == m2.allRotors[c].kind;
    assert m1.allRotors[c].Size() == m2.allRotors[c].Size();
  }

  lemma StepSlotSame(m1: Machine, m2: Machine, sl: seq<nat>, i: int, st: seq<int>)
    requires SameCatalog(m1, m2)
    requires m1.Steps(sl) && m2.Steps(sl) && 1 <= i < |sl| && |st| == |m1.allRotors|
    ensures m1.StepSlot(sl, i, st) == m2.StepSlot(sl, i, st)
  {
    var a, b := sl[i], sl[i - 1];
    assert m1.allRotors[a].kind == m2.allRotors[a].kind && m1.allRotors[a].perm == m2.allRotors[a].perm;
    assert m1.allRotors[b].kind == m2.allRotors[b].kind && m1.allRotors[b].perm == m2.allRotors[b].perm;
    if i >= 2 {
      assert m1.allRotors[sl[i - 2]].kind == m2.allRotors[sl[i - 2]].kind;
      AdvancedSame(m1, m2, st, sl[i - 2]);
      AdvancedSame(m1, m2, m1.Advanced(st, sl[i - 2]), b);
    }
    AdvancedSame(m1, m2, st, b);
    var st2 := m1.Advanced(st, b);
    AdvancedSame(m1, m2, st2, a);
    if i >= 2 {
      AdvancedSame(m1, m2, m1.Advanced(m1.Advanced(st, sl[i - 2]), b), a);
    }
  }

  lemma StepSame(m1: Machine, m2: Machine, sl: seq<nat>, st: seq<int>)
    requires SameCatalog(m1, m2)
    requires m1.Steps(sl) && |st| == |m1.allRotors|
    ensures m2.Steps(sl) && m1.Step(sl, st) == m2.Step(sl, st)
  {
    assert m1.allRotors[sl[0]].kind == m2.allRotors[sl[0]].kind;
    ScanSame(m1, m2, sl, 0, st);
    AdvancedSame(m1, m2, m1.ScanTo(sl, 0, st), sl[|sl| - 1]);
  }

  lemma {:induction false} ScanSame(m1: Machine, m2: Machine, sl: seq<nat>, i: int, st: seq<int>)
    requires SameCatalog(m1, m2)
    requires m1.Steps(sl) && m2.Steps(sl) && 0 <= i < |sl| && |st| == |m1.allRotors|
    ensures m1.ScanTo(sl, i, st) == m2.ScanTo(sl, i, st)
    decreases |sl| - i
  {
    if i < |sl| - 1 {
      ScanSame(m1, m2, sl, i + 1, st);
      StepSlotSame(m1, m2, sl, i + 1, m1.ScanTo(sl, i + 1, st));
    }
  }

  lemma ConductsSame(m1: Machine, m2: Machine, sl: seq<nat>)
    requires SameCatalog(m1, m2) && m1.Conducts(sl)
    ensures m2.Conducts(sl)
  {
    forall i | 0 <= i < |sl| ensures m2.allRotors[sl[i]].Size() > 0 {
      assert m1.allRotors[sl[i]].perm == m2.allRotors[sl[i]].perm;
    }
  }

  lemma {:induction false} ForwardsSame(m1: Machine, m2: Machine, sl: seq<nat>, st: seq<int>, x: int, v: int)
    requires SameCatalog(m1, m2)
    requires m1.Conducts(sl) && m2.Conducts(sl) && |st| == |m1.allRotors| && 0 <= x <= |sl|
    ensures m1.Forwards(sl, st, x, v) == m2.Forwards(sl, st, x, v)
    decreases |sl| - x
  {
    if x < |sl| {
      ForwardsSame(m1, m2, sl, st, x + 1, v);
      assert m1.allRotors[sl[x]].perm == m2.allRotors[sl[x]].perm;
    }
  }

  lemma {:induction false} BackwardsSame(m1: Machine, m2: Machine, sl: seq<nat>, st: seq<int>, y: int, v: int)
    requires SameCatalog(m1, m2)
    requires m1.Conducts(sl) && m2.Conducts(sl) && |st| == |m1.allRotors| && 1 <= y <= |sl|
    ensures m1.Backwards(sl, st, y, v) == m2.Backwards(sl, st, y, v)
  {
    if y > 1 {
      BackwardsSame(m1, m2, sl, st, y - 1, v);
      assert m1.allRotors[sl[y - 1]].perm == m2.allRotors[sl[y - 1]].perm;
    }
  }
}
