# Enigma cipher engine in Dafny

This project models the cipher engine of a configurable Enigma simulator written in Java. It has four parts:

- an `Alphabet` of distinct symbols;
- a `Permutation` written in cycle notation over that alphabet;
- the moving rotor, with its notches and its one-step advance;
- the `Machine`, which holds a catalog of rotors, places some of them in slots (the reflector in slot 0), and converts symbols.

For each symbol the machine steps the rotors, with the double-step anomaly. It then sends the signal through the plugboard, forward through every slot, back through slots 1 .. n-1, and through the plugboard again.

Files, one module each:

- `errors.dfy` (`Errors`): the failures. `EnigmaFailure` is the program's own exception. `IndexOutOfRange` is a Java index exception that the program lets escape. `NullReference` is a Java null dereference.
- `alphabet.dfy` (`Alphabets`): `Alphabet` as an immutable value. The constructor's checks and `contains` are loops.
- `permutation.dfy` (`Permutations`): `wrap`; parsing of cycle notation; the nested search loops of `permute` and `invert`, proved equal to the specification functions `Successor` and `Predecessor`; `derangement`.
- `rotor.dfy` (`Rotors`): a `Rotor` class with a mutable `setting`. Its variants are `Reflector`, `Fixed` and `Moving(notches)`.
- `machine.dfy` (`Machines`): the `Machine` class. The catalog is a sequence of `Rotor` objects. The slots are a sequence of catalog indices, so the source's reference comparisons (`contains` at Machine.java:72 and `!=` at Machine.java:155) compare indices. The stepping, the signal path and message conversion are specified by functions of the catalog settings (`Step`, `Signal`, `Run`), and the methods are proved to compute them.
- `machine_properties.dfy` (`MachineProperties`): lemmas about those functions. They cover stepping, the double step, how `insertRotors` resolves names, where `setRotors` puts settings, reciprocity and round trips.

## Assumed rotor interface

The base class `Rotor` and the classes `Reflector` and `FixedRotor` are not modelled here; their behaviour is assumed. The model ASSUMES the following. These are not derived from cited code:

- `set(p)` stores `p` reduced by the floored modulo of the alphabet size, or `p` itself when the alphabet is empty (`SetValue`).
- `set(char)` sets the alphabet index of the character.
- `reflecting()` is true exactly for a reflector.
- `rotates()` is false for a reflector and for a fixed rotor.
- The base `advance()` does nothing, and the base `atNotch()` is false.
- `convertForward(p)` is `wrap(permute(wrap(p + setting)) - setting)`.
- `convertBackward(p)` is the same with `invert`.
- A new rotor starts at setting 0.
- `set(p)` on a reflector stores the value like any other rotor. `setRotors` never sets slot 0 (Machine.java:107-121), but nothing modelled keeps a reflector that a failed `insertRotors` left in slot 1 or later at setting 0: `setRotors` can then give it a non-zero setting.

Every property below that mentions a setting, a conversion or a reflector depends on these assumptions.

## Behaviour modelled as written

- `toChar` guards with `index <= size()`. So `toChar(size())` passes the guard and fails inside `String.charAt` with a Java index exception, not an `EnigmaException` (`ToChar` returns `Err(IndexOutOfRange)`).
- The guard in `toInt` can never hold, so an absent character gives -1. It never raises an error.
- As a consequence, `convert(String)` does not reject a character outside the alphabet. Its index -1 wraps to the last symbol (`RunTotal`). The code is followed here, not the documented intent that such a character raises an error.
- `permute` and `invert` return the raw argument, not its wrapped value, for a symbol in no cycle.
- `insertRotors` rebuilds the slots and resets the inserted rotors before its later checks, so a failed call still changes state. Only its first check (a non-reflector named first) fails before any change. An empty name list fails on `rotors[0]` with an index exception, but only when the catalog is non-empty.
- `setRotors` validates before it changes anything. A valid setting given before any `insertRotors` call fails on the still-null slot list (`NullReference`), changing nothing. If the slot list is longer than the setting string, it reaches past the end of the string after setting the earlier slots.
- In the stepping loop, later notch checks see the advances of earlier passes. When R is at its notch and M steps onto its notch in the same loop, M moves twice and L once in a single key press (`StepCascade`).

## Model

| member | source | states |
|---|---|---|
| `Alphabets.NewAlphabet` | Alphabet.java:14-34 | construction succeeds iff every character is a letter, digit, `_` or `.` and no character repeats (the empty string is accepted); the alphabet then holds the string and its size is the string's length |
| `Alphabets.PermittedByRange` | Alphabet.java:18-19 | the permitted-character string contains exactly the upper- and lower-case letters, the digits, `_` and `.` |
| `Alphabets.PermittedIndex` | Alphabet.java:21-25 | the first loop's `indexOf(c) == -1` test rejects exactly the characters outside the permitted set |
| `Alphabets.Alphabet.Contains` | Alphabet.java:47-54 | the linear search returns true iff the character occurs in the alphabet string |
| `Alphabets.Alphabet.ToChar` | Alphabet.java:58-63 | succeeds iff 0 <= index < size, giving the index-th character; a negative or larger index fails with the program's exception, and index == size fails with a Java index exception |
| `Alphabets.Alphabet.ToInt` | Alphabet.java:67-72 | returns -1 exactly for an absent character, and otherwise an in-range index whose character is the argument; it never fails |
| `Alphabets.ToIntToChar` | Alphabet.java:58-72 | in a repetition-free alphabet, toInt(toChar(i)) == i for every 0 <= i < size |
| `Alphabets.ToCharToInt` | Alphabet.java:58-72 | toChar(toInt(c)) == c for every character of the alphabet |
| `Alphabets.ToIntInjective` | Alphabet.java:67-72 | two characters of the alphabet with the same index are equal |
| `Alphabets.DefaultValid` | Alphabet.java:37-39 | the default alphabet A..Z is valid and has 26 symbols |
| `Permutations.JavaRem` | Permutation.java:37 | Java's `%`: strictly between -n and n, congruent to p modulo n, never negative for p >= 0 and never positive for p <= 0 |
| `Permutations.Wrap` | Permutation.java:36-42 | wrap(p) lies in [0, size) |
| `Permutations.WrapIsFlooredMod` | Permutation.java:36-42 | wrap(p) is the floored modulo of p and differs from p by a multiple of the size |
| `Permutations.Strip` | Permutation.java:23-24 | the stripped string has no whitespace and no `(` and is no longer than the input |
| `Permutations.StripKeeps` | Permutation.java:23-24 | stripping removes every whitespace character and every `(`, and keeps every other character exactly as often as it occurs |
| `Permutations.StripAppend` | Permutation.java:23-24 | stripping works character by character: stripping a + b is stripping a, then b |
| `Permutations.Pieces` | Permutation.java:25 | splitting at `)` gives at least one piece, no piece contains `)`, and joining the pieces with `)` gives back the string |
| `Permutations.DropTrailingEmpty` | Permutation.java:25 | the trailing empty pieces are dropped: the result is a prefix, ends in a non-empty piece, and only empty pieces were removed |
| `Permutations.NewPermutation` | Permutation.java:19-27 | the permutation keeps the alphabet and its size; its cycles are free of whitespace and parentheses, and every character in them comes from the notation |
| `Permutations.NewPermutationFormat` | Permutation.java:19-27 | the constructor given the notation " (c1) (c2) ..." of non-empty plain cycles holds exactly those cycles |
| `Permutations.ParseChars` | Permutation.java:23-25 | every character of a parsed cycle occurs in the notation |
| `Permutations.ParseFormat` | Permutation.java:19-27 | parsing the notation " (c1) (c2) ..." of non-empty cycles without whitespace or parentheses gives back exactly those cycles |
| `Permutations.ParseClean` | Permutation.java:23-25 | every parsed cycle is free of whitespace and parentheses |
| `Permutations.ParseEmpty` | Permutation.java:23-25 | the empty notation parses to one empty cycle |
| `Permutations.Permutation.Permute` | Permutation.java:51-65 | the nested search loops return the cyclic successor, in the first cycle holding it, of the symbol at wrap(p), or p itself when no cycle holds that symbol |
| `Permutations.Permutation.Invert` | Permutation.java:69-83 | the nested loops, each cycle scanned from its end, return the cyclic predecessor of the symbol at wrap(c), or c itself when no cycle holds that symbol |
| `Permutations.Permutation.PermuteChar` | Permutation.java:87-89 | permute(char), i.e. toChar(permute(toInt(c))): any symbol it returns is an alphabet symbol, and for a well-formed permutation every alphabet symbol gets one; `CharOfMember`, `CharOfFixedPoint` and `CharOfAbsent` give its values |
| `Permutations.Permutation.InvertChar` | Permutation.java:92-94 | invert(char), i.e. toChar(invert(toInt(c))): the same guarantees as permute(char); `CharOfMember`, `CharOfFixedPoint` give its values |
| `Permutations.Permutation.Derangement` | Permutation.java:103-109 | the counting loop returns true iff the summed cycle length is at least the alphabet size |
| `Permutations.SuccessorOfMember` | Permutation.java:51-63 | for well-formed cycles, permute on a cycle symbol gives the next symbol of that cycle, wrapping from last to first; a one-symbol cycle maps its symbol to itself |
| `Permutations.PredecessorOfMember` | Permutation.java:69-81 | invert on a cycle symbol gives the previous symbol of that cycle, wrapping from first to last |
| `Permutations.FixedPoint` | Permutation.java:51-83 | a symbol in no cycle is a fixed point of both permute and invert, and the value returned is the raw argument, not wrap(p) |
| `Permutations.WrapInvariance` | Permutation.java:51-83 | an argument whose wrapped symbol lies in a cycle behaves exactly like its wrapped value under permute and invert |
| `Permutations.ExampleWrap` | MyPermutationTests.java:47-87 | over ABC with (BAC): permute(-2) == 0, permute(8) == 1, invert(-2) == 2 and invert(8) == 0 |
| `Permutations.ExampleRawReturn` | Permutation.java:51-83 | the model's own example: over ABCD with (ABC), permute(-1) and invert(-1) both return -1, because D is in no cycle |
| `Permutations.SuccessorInRange` | Permutation.java:51-83 | for a well-formed permutation, permute and invert map alphabet indices to alphabet indices |
| `Permutations.InvertAfterPermute` | Permutation.java:51-83 | invert(permute(i)) == i for every index of a well-formed permutation |
| `Permutations.PermuteAfterInvert` | Permutation.java:51-83 | permute(invert(i)) == i for every index of a well-formed permutation |
| `Permutations.ShortCyclesSymmetric` | Permutation.java:51-83 | with cycles of at most two symbols, permute and invert agree |
| `Permutations.Involution` | Permutation.java:51-83 | with cycles of at most two symbols, permute is its own inverse |
| `Permutations.CharOfMember` | Permutation.java:87-94 | permute(char) and invert(char) on a cycle symbol give its next and previous symbols, i.e. toChar(permute(toInt(c))) and toChar(invert(toInt(c))) |
| `Permutations.CharOfFixedPoint` | Permutation.java:87-94 | permute(char) and invert(char) return an alphabet symbol in no cycle unchanged |
| `Permutations.CharOfAbsent` | Permutation.java:87-89 | a character outside the alphabet is not rejected: it acts as the last symbol when that symbol is in a cycle, and otherwise fails in toChar(-1) |
| `Permutations.DerangementCoverage` | Permutation.java:103-109 | for a well-formed permutation, derangement's count test holds iff every alphabet symbol lies in some cycle |
| `Permutations.DerangementMovesAll` | Permutation.java:101-109 | a derangement without one-symbol cycles moves every index |
| `Rotors.Rotor.constructor` | MovingRotor.java:15-18 | a new rotor starts at setting 0 and rotates iff it is a moving rotor |
| `Rotors.Rotor.AtNotch` | MovingRotor.java:24-39 | the search over the notch characters returns true iff some notch character's alphabet index equals the current setting; it changes nothing |
| `Rotors.Rotor.Advance` | MovingRotor.java:41-44 | a moving rotor's setting becomes set(setting + 1), once; other rotors are assumed unchanged |
| `Rotors.NotchBySymbol` | MovingRotor.java:32-38 | over a repetition-free alphabet, a moving rotor is at a notch iff the symbol at its setting is a notch character |
| `Rotors.NeverAtNotch` | MovingRotor.java:32-38 | with an empty notch string, or for a rotor that does not move, atNotch is always false |
| `Rotors.AdvanceCounts` | MovingRotor.java:41-44 | a moving rotor advanced m > 0 times from s stands at wrap(s + m) |
| `Rotors.BackwardForward` | Machine.java:161-168 | under the assumed conversions, convertBackward undoes convertForward at every setting |
| `Rotors.ForwardBackward` | Machine.java:161-168 | under the assumed conversions, convertForward undoes convertBackward at every setting |
| `Rotors.ForwardInvolution` | Machine.java:161-168 | a rotor whose cycles have at most two symbols converts forward as its own inverse at every setting |
| `Rotors.ForwardFixedPoint` | Machine.java:161-168 | a forward conversion fixes p iff the permutation fixes the symbol p enters as |
| `Machines.NewMachine` | Machine.java:17-45 | construction fails unless numRotors > 1, pawls >= 0 and pawls < numRotors, and fails if two catalog rotors share a name; a new machine has no slot list yet (the source's null list) and no plugboard |
| `Machines.Machine.constructor` | Machine.java:17-29 | the machine keeps the alphabet, the counts and the catalog |
| `Machines.Machine.InsertRotors` | Machine.java:62-102 | a non-reflector named first fails before any change; otherwise the slot list then exists and becomes the resolved names, the inserted rotors are reset to 0, and the call succeeds iff moving rotors <= pawls, exactly one reflector, the reflector is in slot 0 and every name was resolved; a failure leaves the new slots and settings behind |
| `Machines.Machine.ResolveAndReset` | Machine.java:68-77 | the rebuilding loops produce the resolved slot list, each catalog rotor at most once, and reset exactly the inserted rotors |
| `Machines.Machine.AddAndReset` | Machine.java:70-76 | the inner loop for one name appends the catalog rotors of that name that are not yet in the list, and resets them |
| `Machines.Machine.AddIfMatching` | Machine.java:71-75 | one pass of that inner loop: catalog rotor c is appended and reset iff it has the name and is not yet in the list |
| `Machines.Machine.CheckSlots` | Machine.java:78-101 | the four checks pass iff moving count <= pawls, reflector count == 1, slot 0 reflects and the slot count equals the name count |
| `Machines.Machine.CountMoving` | Machine.java:78-83 | the loop counts the rotating rotors in the slots |
| `Machines.Machine.CountReflectors` | Machine.java:87-94 | the loop counts the reflectors in the slots |
| `Machines.Machine.SetRotors` | Machine.java:108-121 | a wrong length or a character outside the alphabet fails before any setting changes; a valid setting before any insertRotors fails on the null slot list with no change; otherwise slot i takes character i-1 for i >= 1 |
| `Machines.Machine.SettingKnown` | Machine.java:112-116 | the check loop returns true iff every setting character is in the alphabet |
| `Machines.Machine.ApplySettings` | Machine.java:117-120 | the setting loop sets slots 1 .. n-1 from the setting string, failing with an index exception when the string runs out |
| `Machines.Machine.SetPlugboard` | Machine.java:125-127 | the plugboard is replaced and the slots are unchanged |
| `Machines.Machine.StepAt` | Machine.java:146-158 | one pass of the stepping loop at slot i, as the specification function `StepSlot` states it |
| `Machines.Machine.AdvancePair` | Machine.java:149-157 | the advances of one triggered pass: the rotor two to the left when it is due, the left neighbour, and slot i unless it is the rightmost rotor |
| `Machines.Machine.ScanSlots` | Machine.java:145-159 | the right-to-left loop, each pass seeing the advances of the passes before it |
| `Machines.Machine.StepRotors` | Machine.java:145-160 | the loop followed by one advance of the rightmost rotor |
| `Machines.Machine.ForwardPass` | Machine.java:162-164 | the forward loop converts through slots n-1 down to 0 at the current settings |
| `Machines.Machine.BackwardPass` | Machine.java:165-167 | the backward loop converts through slots 1 up to n-1 at the current settings |
| `Machines.Machine.Convert` | Machine.java:144-169 | convert(int) steps the rotors, then returns plugboard(back(forward(plugboard(c)))) at the new settings |
| `Machines.Machine.ConvertInto` | Machine.java:176-179 | one loop body of convert(String): toInt, convert, toChar, and a store that a failing toChar never reaches |
| `Machines.Machine.ConvertMessage` | Machine.java:174-182 | convert(String) converts left to right, carrying the rotor state, and is the specification function `Run` |
| `Machines.Machine.RunFailed` | Machine.java:174-182 | once a prefix of the message has failed, the whole message fails in the same way |
| `MachineProperties.StepFrame` | Machine.java:145-160 | one convert call moves no rotor outside the slots and no rotor that cannot rotate |
| `MachineProperties.SlotZeroStill` | Machine.java:145-160 | the rotor in slot 0, which does not rotate, never moves during stepping |
| `MachineProperties.StepRightmost` | Machine.java:145-160 | each convert call advances the rightmost rotor exactly once |
| `MachineProperties.StepTimesRightmost` | Machine.java:145-160 | after k convert calls the rightmost rotor has advanced exactly k times |
| `MachineProperties.RightmostCounts` | Machine.java:145-160 | a moving rightmost rotor stands at its starting setting plus k, wrapped, after k > 0 calls |
| `MachineProperties.StepQuiet` | Machine.java:145-160 | with no slotted rotor at a notch, only the rightmost rotor advances |
| `MachineProperties.DoubleStep` | Machine.java:145-160 | slots [reflector, L, M, R] with M at its notch and R not: one call advances L, M and R, each once |
| `MachineProperties.DoubleStepOthers` | Machine.java:145-160 | in that double step every other catalog rotor keeps its setting |
| `MachineProperties.StepCascade` | Machine.java:145-160 | with R at its notch and M stepping onto its notch, one call moves M twice and L and R once, because later passes see earlier advances |
| `MachineProperties.ForwardsInRange` | Machine.java:162-164 | the forward pass keeps an index inside the alphabet |
| `MachineProperties.BackwardsInRange` | Machine.java:165-167 | the backward pass keeps an index inside the alphabet |
| `MachineProperties.ForwardsWraps` | Machine.java:162-164 | from slot 0, the forward pass lands inside the alphabet whatever index enters |
| `MachineProperties.BackwardsUndoForwards` | Machine.java:161-168 | the backward pass through slots 1 .. y-1 undoes the forward pass, slot by slot |
| `MachineProperties.ForwardsUndoBackwards` | Machine.java:161-168 | the forward pass through slots n-1 .. 1 undoes the whole backward pass |
| `MachineProperties.SignalInRange` | Machine.java:161-168 | convert(int) returns an alphabet index whatever index enters |
| `MachineProperties.SignalStages` | Machine.java:161-168 | the signal for c passes plugboard, forward pass, reflector and backward pass, each stage staying inside the alphabet |
| `MachineProperties.Reciprocal` | Machine.java:161-168 | with a plugboard and reflector that pair symbols, converting the output at the same settings gives back the input |
| `MachineProperties.NoSelfImage` | Machine.java:161-168 | when the reflector moves every symbol, no index converts to itself |
| `MachineProperties.AddMatchingOne` | Machine.java:70-76 | with distinct catalog names, the inner loop appends the one rotor of that name iff it is not yet in the slots |
| `MachineProperties.AddMatchingNone` | Machine.java:70-76 | an unknown name adds nothing |
| `MachineProperties.ResolveFacts` | Machine.java:68-77 | a catalog rotor is inserted iff some name names it, never twice; there are as many slots as names iff every name is known and no name repeats, and slot i then holds the rotor named names[i] |
| `MachineProperties.KnownSplit` | Machine.java:68-77 | all names are known iff the earlier names are and the last name is |
| `MachineProperties.DistinctSplit` | Machine.java:68-77 | the names are distinct iff the earlier names are and the last one is new |
| `MachineProperties.AppliedSlots` | Machine.java:117-120 | after the setting loop, slot i stands at the setting named by character i-1, and every other rotor keeps its setting |
| `MachineProperties.AppliedSlotZero` | Machine.java:117-120 | setRotors never changes the rotor in slot 0 |
| `MachineProperties.RunLength` | Machine.java:174-182 | a successful convert(String) returns a string as long as the message |
| `MachineProperties.RunTotal` | Machine.java:174-182 | with every rotor and the plugboard over the machine's alphabet, convert(String) never fails, even for absent characters, and the rotors step once per character |
| `MachineProperties.ReciprocalChar` | Machine.java:174-182 | a ciphertext character converts back, at the same settings, to its plaintext character |
| `MachineProperties.RunReciprocal` | Machine.java:174-182 | decrypting a ciphertext from the same starting settings recovers the plaintext and leaves the rotors where the encryption left them |
| `MachineProperties.RunDeterministic` | Machine.java:174-182 | two separately built machines whose catalogs agree rotor by rotor (name, permutation, kind), with the same alphabet, slots, plugboard and starting settings, produce the same output and final settings |

## Left out

- Main.java: argument checks, file and console I/O, the regular-expression reading of the configuration and setting lines, `System.exit`, and the five-character output grouping. The model takes configuration as values.
- The behaviour of `Rotor`, `Reflector` and `FixedRotor` (`set`, `setting`, `convertForward`, `convertBackward`, `reflecting`, base `advance` and `atNotch`): these classes are not modelled. They are replaced by the assumed interface described above.
- Java regex and `String.split` mechanics: the parsing is modelled by its effect. Whitespace and `(` are removed, the string is split at `)`, and trailing empty pieces are dropped.
- Exception message texts: only the kind of failure is modelled.
- `Permutation.addCycle` and `Machine.wrap`: nothing in the program calls them. The `wrap` modelled is Permutation's, which is identical.
- `Permutation.alphabet()`, `Machine.numRotors()` and `Machine.numPawls()`: plain accessors, modelled as the fields themselves.
- 32-bit `int` overflow: indices and settings are unbounded integers. Overflow would need a setting or an index near 2^31, which the program never reaches.
- `Machines.Machine.Convert`, `Machines.Machine.StepRotors`, `Machines.Machine.ScanSlots` and `Machines.Machine.ConvertMessage` require `Ready()`. That means a plugboard has been set, the slot list exists and is non-empty, the rotor in slot 0 does not rotate, and every slotted rotor has a non-empty alphabet. The source's `convert` reaches these states without an `EnigmaException` only through a failed `insertRotors` whose state is kept, and then fails in ways not modelled:
  - before `setPlugboard` or before `insertRotors`, it dereferences null;
  - with an empty slot list (for example after `insertRotors` of one unknown name), `get(size() - 1)` throws an index exception (Machine.java:160);
  - with a rotating rotor in slot 0, the stepping loop can advance slot 0 or reach `get(i - 2)` with i = 1 (Machine.java:150).
  The program's `Main` stops at the first failed `insertRotors`, so it never converts in those states.
- `Permutations.Wrap`, `Permutations.Permutation.Successor`, `Permutations.Permutation.Predecessor`, `Permutations.Permutation.Permute`, `Permutations.Permutation.Invert`, `Permutations.Permutation.PermuteChar` and `Permutations.Permutation.InvertChar` require a non-empty alphabet. The `Alphabet` constructor accepts the empty string, and over it the source's `p % 0` throws `ArithmeticException`; that failure is not modelled.
- `Machines.Machine.ConvertMessage` and `Permutations.Permutation.Derangement`: a Dafny `char` is a Unicode scalar value, while a Java `char` is a UTF-16 code unit. A character outside the Basic Multilingual Plane is one symbol here and two (a surrogate pair) in the source. Such a character can never belong to an alphabet, because the constructor admits only ASCII letters, digits, `_` and `.`. It can still appear in cycle notation, and `derangement` sums the cycles' `length()` (Permutation.java:106), which counts it as two code units where `TotalLength` counts one.
- Aliasing of the catalog: rotors are held as objects in a sequence, and distinct names are what make them distinct. A catalog with two references to one object is excluded by the constructor's name check.
