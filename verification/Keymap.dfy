/** The first half of handle_keyboard: from scan codes to what a key press asks for. */
module Keymap {

  const HOLDING_INIT := 3
  const DOUBLE_CODE := 0xE0

  // The four scan code tables, row by row.
  const NUMBERS := "\0\U{00FF}1234567890-=\U{0008}\t"
  const SIGNS := "\0\U{00FF}!@#$%^&*()_+\U{0008}\t"
  const REST := "\0\0\0 \0\0\0\0"
  const NORM := NUMBERS + "qwertyuiop[]\n\0" + "asdfghjkl;'`\0\\" + "zxcvbnm,./" + REST
  const CAP := NUMBERS + "QWERTYUIOP[]\n\0" + "ASDFGHJKL;'`\0\\" + "ZXCVBNM,./" + REST
  const SHIFT := SIGNS + "QWERTYUIOP{}\n\0" + "ASDFGHJKL:\"~\0|" + "ZXCVBNM<>?" + REST
  const SHIFT_CAP := SIGNS + "qwertyuiop{}\n\0" + "asdfghjkl:\"~\0|" + "zxcvbnm<>?" + REST

  datatype Keys = Keys(shift: bool, capslock: bool, alt: bool, ctrl: bool, oldData: nat, holding: nat)

  const NO_KEYS := Keys(false, false, false, false, 0, HOLDING_INIT)

  datatype Action = Nothing | Char(c: char) | Wipe | SwitchTo(terminal: nat)

  /** The modifier keys after a scan code that differs from the one before it. */
  function Modify(k: Keys, scan: nat): (r: Keys)
    ensures r.oldData == k.oldData && r.holding == k.holding
  {
    if scan == 0xB8 then k.(alt := false)
    else if scan == 0x9D then k.(ctrl := false)
    else if scan == 0x38 then k.(alt := true)
    else if scan == 0x1D then k.(ctrl := true)
    else if k.oldData == DOUBLE_CODE then k
    else if scan == 0xAA || scan == 0xB6 then k.(shift := false)
    else if scan == 0x2A || scan == 0x36 then k.(shift := true)
    else if scan == 0x3A then k.(capslock := !k.capslock)
    else k
  }

  function TableOf(k: Keys): (table: string)
    ensures |table| == 62
  {
    if k.capslock && k.shift then SHIFT_CAP else if k.capslock then CAP else if k.shift then SHIFT else NORM
  }

  /** What a scan code that is acted upon means under the current modifiers. */
  function Meaning(k: Keys, scan: nat): (a: Action)
    ensures a.Char? ==> a.c != '\0'
    ensures a.SwitchTo? ==> a.terminal < 3 && k.alt && !k.ctrl
  {
    if scan >= 62 then Nothing
    else if k.ctrl then (if scan == 0x26 then Wipe else Nothing)
    else if k.alt then (if 59 <= scan <= 61 then SwitchTo(scan - 59) else Nothing)
    else
      if TableOf(k)[scan] == '\0' then Nothing else Char(TableOf(k)[scan])
  }

  /** A key acts when it is pressed, and again once it has been held for long enough. */
  predicate Acts(k: Keys, scan: nat) {
    scan != k.oldData || k.holding == 0
  }

  /** The modifier state that a scan code is interpreted under. */
  function Pressed(k: Keys, scan: nat): Keys {
    if scan != k.oldData then Modify(k, scan).(holding := HOLDING_INIT)
    else if k.holding != 0 then k.(holding := k.holding - 1)
    else k
  }

  function ActionOf(k: Keys, scan: nat): Action {
    if Acts(k, scan) then Meaning(Pressed(k, scan), scan) else Nothing
  }

  /** The state after the handler has returned. */
  function After(k: Keys, scan: nat): Keys {
    Pressed(k, scan).(oldData := scan)
  }

  function Repeat(k: Keys, scan: nat, n: nat): Keys {
    if n == 0 then k else After(Repeat(k, scan, n - 1), scan)
  }

  /** A held key acts when it goes down and from its fourth repetition on; modifiers never repeat. */
  lemma {:induction false} HeldKey(k: Keys, scan: nat, n: nat)
    requires scan != k.oldData
    ensures var r := Repeat(k, scan, n);
            && (Acts(r, scan) <==> n == 0 || n > HOLDING_INIT)
            && (n > 0 ==>
                  r == Modify(k, scan).(oldData := scan,
                                        holding := if n <= HOLDING_INIT then HOLDING_INIT + 1 - n else 0))
  {
    if n == 0 {
    } else {
      HeldKey(k, scan, n - 1);
    }
  }

  // ---------- what a key types ----------

  /** What is printed on a key. */
  datatype Cap = Letter(small: char) | Sign(plain: char, shifted: char) | Same(c: char) | Blank

  function CapOf(scan: nat): (cap: Cap)
    ensures cap.Letter? ==> 'a' <= cap.small <= 'z'
  {
    if 16 <= scan <= 25 then Letter("qwertyuiop"[scan - 16])
    else if 30 <= scan <= 38 then Letter("asdfghjkl"[scan - 30])
    else if 44 <= scan <= 50 then Letter("zxcvbnm"[scan - 44])
    else if 2 <= scan <= 13 then Sign("1234567890-="[scan - 2], "!@#$%^&*()_+"[scan - 2])
    else if 26 <= scan <= 27 then Sign("[]"[scan - 26], "{}"[scan - 26])
    else if 39 <= scan <= 41 then Sign(";'`"[scan - 39], ":\"~"[scan - 39])
    else if 51 <= scan <= 53 then Sign(",./"[scan - 51], "<>?"[scan - 51])
    else if scan == 43 then Sign('\\', '|')
    else if scan == 1 then Same('\U{00FF}')
    else if scan == 14 then Same('\U{0008}')
    else if scan == 15 then Same('\t')
    else if scan == 28 then Same('\n')
    else if scan == 57 then Same(' ')
    else Blank
  }

  function Capital(small: char): char
    requires 'a' <= small <= 'z'
  {
    small - 'a' + 'A'
  }

  /** Caps lock turns the letters and nothing else, and shift turns them back. */
  function Types(cap: Cap, shift: bool, capslock: bool): Action
    requires cap.Letter? ==> 'a' <= cap.small <= 'z'
  {
    match cap
    case Letter(small) => Char(if shift != capslock then Capital(small) else small)
    case Sign(plain, shifted) => Char(if shift then shifted else plain)
    case Same(c) => Char(c)
    case Blank => Nothing
  }

  predicate TypesItsCap(k: Keys, scan: nat) {
    Meaning(k, scan) == Types(CapOf(scan), k.shift, k.capslock)
  }

  // The rows that the tables are made of.

  function FirstRow(k: Keys): (row: string)
    ensures |row| == 16
  {
    if k.shift then SIGNS else NUMBERS
  }

  function SecondRow(k: Keys): (row: string)
    ensures |row| == 14
  {
    if k.shift then if k.capslock then "qwertyuiop{}\n\0" else "QWERTYUIOP{}\n\0"
    else if k.capslock then "QWERTYUIOP[]\n\0" else "qwertyuiop[]\n\0"
  }

  function ThirdRow(k: Keys): (row: string)
    ensures |row| == 14
  {
    if k.shift then if k.capslock then "asdfghjkl:\"~\0|" else "ASDFGHJKL:\"~\0|"
    else if k.capslock then "ASDFGHJKL;'`\0\\" else "asdfghjkl;'`\0\\"
  }

  function FourthRow(k: Keys): (row: string)
    ensures |row| == 10
  {
    if k.shift then if k.capslock then "zxcvbnm<>?" else "ZXCVBNM<>?"
    else if k.capslock then "ZXCVBNM,./" else "zxcvbnm,./"
  }

  lemma RowsOfTable(a: string, b: string, c: string, d: string, e: string, i: nat)
    requires |a| == 16 && |b| == |c| == 14 && |d| == 10 && |e| == 8 && i < 62
    ensures (a + b + c + d + e)[i] == if i < 16 then a[i] else if i < 30 then b[i - 16]
                                      else if i < 44 then c[i - 30] else if i < 54 then d[i - 44] else e[i - 54]
  {
  }

  lemma InRow(k: Keys, i: nat)
    requires i < 62
    ensures TableOf(k)[i] ==
              if i < 16 then FirstRow(k)[i] else if i < 30 then SecondRow(k)[i - 16]
              else if i < 44 then ThirdRow(k)[i - 30] else if i < 54 then FourthRow(k)[i - 44] else REST[i - 54]
  {
    RowsOfTable(FirstRow(k), SecondRow(k), ThirdRow(k), FourthRow(k), REST, i);
  }

  lemma FirstRowTypes(k: Keys, scan: nat, c: char)
    requires !k.ctrl && !k.alt && scan < 16 && c == TableOf(k)[scan] == FirstRow(k)[scan]
    ensures TypesItsCap(k, scan)
  {
  }

  lemma SecondRowTypes(k: Keys, scan: nat, c: char)
    requires !k.ctrl && !k.alt && 16 <= scan < 30 && c == TableOf(k)[scan] == SecondRow(k)[scan - 16]
    ensures TypesItsCap(k, scan)
  {
  }

  lemma ThirdRowTypes(k: Keys, scan: nat, c: char)
    requires !k.ctrl && !k.alt && 30 <= scan < 44 && c == TableOf(k)[scan] == ThirdRow(k)[scan - 30]
    ensures TypesItsCap(k, scan)
  {
  }

  lemma LastRowsType(k: Keys, scan: nat, c: char)
    requires !k.ctrl && !k.alt && 44 <= scan < 62
    requires c == TableOf(k)[scan] == if scan < 54 then FourthRow(k)[scan - 44] else REST[scan - 54]
    ensures TypesItsCap(k, scan)
  {
  }

  /** Every key types its own character, whatever tables that takes. */
  lemma KeysType(k: Keys, scan: nat)
    requires !k.ctrl && !k.alt && scan < 62
    ensures Meaning(k, scan) == Types(CapOf(scan), k.shift, k.capslock)
  {
    InRow(k, scan);
    assert TypesItsCap(k, scan) by {
      if scan < 16 {
        FirstRowTypes(k, scan, TableOf(k)[scan]);
      } else if scan < 30 {
        SecondRowTypes(k, scan, TableOf(k)[scan]);
      } else if scan < 44 {
        ThirdRowTypes(k, scan, TableOf(k)[scan]);
      } else {
        LastRowsType(k, scan, TableOf(k)[scan]);
      }
    }
  }

  /** With ctrl only L does something, and with alt only the first three function keys; nothing else types then. */
  lemma ControlKeys(k: Keys, scan: nat)
    ensures k.ctrl ==> Meaning(k, scan) == if scan == 0x26 then Wipe else Nothing
    ensures k.alt && !k.ctrl ==> Meaning(k, scan) == if 59 <= scan <= 61 then SwitchTo(scan - 59) else Nothing
    ensures scan >= 62 ==> Meaning(k, scan) == Nothing
    ensures CapOf(0x26) == Letter('l')
  {
  }

  // ---------- the modifier keys ----------

  /** The state after a sequence of scan codes. */
  function Scans(k: Keys, codes: seq<nat>): Keys {
    if codes == [] then k else After(Scans(k, codes[..|codes| - 1]), codes[|codes| - 1])
  }

  /** The code before number `i`. */
  function CodeBefore(prev: nat, codes: seq<nat>, i: nat): nat
    requires i <= |codes|
  {
    if i == 0 then prev else codes[i - 1]
  }

  /** Code `i` is not a repetition; `plain` ones do not count behind a double code either. */
  predicate Counts(prev: nat, codes: seq<nat>, plain: bool, i: nat)
    requires i < |codes|
  {
    codes[i] != CodeBefore(prev, codes, i) && !(plain && CodeBefore(prev, codes, i) == DOUBLE_CODE)
  }

  /** From `from` on no code of `off` counts. */
  predicate NotReleased(prev: nat, codes: seq<nat>, off: set<nat>, plain: bool, from: nat) {
    forall j | from <= j < |codes| :: codes[j] in off ==> !Counts(prev, codes, plain, j)
  }

  /** The key was pressed by code `i` and not released after that. */
  predicate HeldFrom(prev: nat, codes: seq<nat>, on: set<nat>, off: set<nat>, plain: bool, i: nat)
    requires i < |codes|
  {
    codes[i] in on && Counts(prev, codes, plain, i) && NotReleased(prev, codes, off, plain, i + 1)
  }

  /** The key was down and has not been released, or it was pressed and not released after that. */
  ghost predicate HeldDown(prev: nat, codes: seq<nat>, on: set<nat>, off: set<nat>, plain: bool, was: bool) {
    || (was && NotReleased(prev, codes, off, plain, 0))
    || exists i | 0 <= i < |codes| :: HeldFrom(prev, codes, on, off, plain, i)
  }

  lemma CountsBefore(prev: nat, codes: seq<nat>, c: nat, plain: bool, i: nat)
    requires i < |codes|
    ensures (codes + [c])[i] == codes[i] && Counts(prev, codes + [c], plain, i) == Counts(prev, codes, plain, i)
  {
    assert CodeBefore(prev, codes + [c], i) == CodeBefore(prev, codes, i);
  }

  lemma NotReleasedSnoc(prev: nat, codes: seq<nat>, c: nat, off: set<nat>, plain: bool, from: nat)
    requires from <= |codes|
    ensures NotReleased(prev, codes + [c], off, plain, from) <==>
              NotReleased(prev, codes, off, plain, from) && (c in off ==> !Counts(prev, codes + [c], plain, |codes|))
  {
    forall i | 0 <= i < |codes|
      ensures (codes + [c])[i] == codes[i] && Counts(prev, codes + [c], plain, i) == Counts(prev, codes, plain, i)
    {
      CountsBefore(prev, codes, c, plain, i);
    }
    assert (codes + [c])[|codes|] == c;
  }

  lemma HeldFromSnoc(prev: nat, codes: seq<nat>, c: nat, on: set<nat>, off: set<nat>, plain: bool, i: nat)
    requires i <= |codes|
    ensures HeldFrom(prev, codes + [c], on, off, plain, i) <==>
              if i == |codes| then c in on && Counts(prev, codes + [c], plain, i)
              else HeldFrom(prev, codes, on, off, plain, i)
                     && (c in off ==> !Counts(prev, codes + [c], plain, |codes|))
  {
    if i < |codes| {
      CountsBefore(prev, codes, c, plain, i);
      NotReleasedSnoc(prev, codes, c, off, plain, i + 1);
    }
  }

  lemma HeldDownSnoc(prev: nat, codes: seq<nat>, c: nat, on: set<nat>, off: set<nat>, plain: bool, was: bool)
    requires on !! off
    ensures var last := CodeBefore(prev, codes, |codes|);
            HeldDown(prev, codes + [c], on, off, plain, was) <==>
              if c != last && !(plain && last == DOUBLE_CODE) && c in on then true
              else if c != last && !(plain && last == DOUBLE_CODE) && c in off then false
              else HeldDown(prev, codes, on, off, plain, was)
  {
    var n, longer := |codes|, codes + [c];
    assert CodeBefore(prev, longer, n) == CodeBefore(prev, codes, n) && longer[n] == c;
    NotReleasedSnoc(prev, codes, c, off, plain, 0);
    forall i | 0 <= i <= n
      ensures HeldFrom(prev, longer, on, off, plain, i) <==>
                if i == n then c in on && Counts(prev, longer, plain, n)
                else HeldFrom(prev, codes, on, off, plain, i) && (c in off ==> !Counts(prev, longer, plain, n))
    {
      HeldFromSnoc(prev, codes, c, on, off, plain, i);
    }
    assert c in on && Counts(prev, longer, plain, n) ==> HeldFrom(prev, longer, on, off, plain, n);
    if i :| 0 <= i < n && HeldFrom(prev, codes, on, off, plain, i) {
      assert !(c in off && Counts(prev, longer, plain, n)) ==> HeldFrom(prev, longer, on, off, plain, i);
    }
  }

  /** How often caps lock was pressed. */
  function Presses(prev: nat, codes: seq<nat>): nat {
    if codes == [] then 0
    else
      var n := |codes| - 1;
      Presses(prev, codes[..n]) + if codes[n] == 0x3A && Counts(prev, codes, true, n) then 1 else 0
  }

  /**
   After any sequence of scan codes shift, ctrl and alt are on exactly as long as one of their keys is held down, and
   caps lock is on exactly if it was pressed an odd number of times more.
   */
  lemma {:induction false} ModifiersFollowKeys(k: Keys, codes: seq<nat>)
    ensures var r := Scans(k, codes);
            && (r.shift <==> HeldDown(k.oldData, codes, {0x2A, 0x36}, {0xAA, 0xB6}, true, k.shift))
            && (r.ctrl <==> HeldDown(k.oldData, codes, {0x1D}, {0x9D}, false, k.ctrl))
            && (r.alt <==> HeldDown(k.oldData, codes, {0x38}, {0xB8}, false, k.alt))
            && (r.capslock <==> (k.capslock != (Presses(k.oldData, codes) % 2 == 1)))
            && r.oldData == CodeBefore(k.oldData, codes, |codes|)
  {
    if codes == [] {
    } else {
      var n := |codes| - 1;
      var first, c := codes[..n], codes[n];
      ModifiersFollowKeys(k, first);
      assert codes == first + [c] && CodeBefore(k.oldData, codes, n) == CodeBefore(k.oldData, first, n);
      HeldDownSnoc(k.oldData, first, c, {0x2A, 0x36}, {0xAA, 0xB6}, true, k.shift);
      HeldDownSnoc(k.oldData, first, c, {0x1D}, {0x9D}, false, k.ctrl);
      HeldDownSnoc(k.oldData, first, c, {0x38}, {0xB8}, false, k.alt);
      Modified(Scans(k, first), c);
    }
  }

  /** One scan code. */
  lemma Modified(k: Keys, c: nat)
    ensures var r := After(k, c);
            && r.oldData == c
            && r.shift == (if c == k.oldData || k.oldData == DOUBLE_CODE then k.shift
                           else if c in {0x2A, 0x36} then true else if c in {0xAA, 0xB6} then false else k.shift)
            && r.ctrl == (if c == k.oldData then k.ctrl else if c == 0x1D then true
                          else if c == 0x9D then false else k.ctrl)
            && r.alt == (if c == k.oldData then k.alt else if c == 0x38 then true
                         else if c == 0xB8 then false else k.alt)
            && r.capslock == (k.capslock != (c == 0x3A && c != k.oldData && k.oldData != DOUBLE_CODE))
  {
  }

  /** A key that is not a modifier, pressed after any sequence of scan codes, types what the held keys make of it. */
  lemma NextKeyTypes(k: Keys, codes: seq<nat>, scan: nat)
    requires scan < 62 && scan !in {0x1D, 0x2A, 0x36, 0x38, 0x3A} && scan != CodeBefore(k.oldData, codes, |codes|)
    requires !HeldDown(k.oldData, codes, {0x1D}, {0x9D}, false, k.ctrl)
    requires !HeldDown(k.oldData, codes, {0x38}, {0xB8}, false, k.alt)
    ensures ActionOf(Scans(k, codes), scan) ==
              Types(CapOf(scan), HeldDown(k.oldData, codes, {0x2A, 0x36}, {0xAA, 0xB6}, true, k.shift),
                    k.capslock != (Presses(k.oldData, codes) % 2 == 1))
  {
    ModifiersFollowKeys(k, codes);
    KeysType(Pressed(Scans(k, codes), scan), scan);
  }
}
