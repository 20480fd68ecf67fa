/**
 The contents of the boot environment: the text of every variable, the checks of the typed
 getVariable calls, and the reading of a whole environment as an Env.
 */
module Variables {
  import opened Results
  import opened BootEnv

  // ----- "update" -----

  const FIRMWARE_A_INDEX := 0
  const APPLICATION_A_INDEX := 1
  const FIRMWARE_B_INDEX := 2
  const APPLICATION_B_INDEX := 3

  predicate IsMark(c: char) {
    '0' <= c <= '3'
  }

  function MarkOf(c: char): Mark
    requires IsMark(c)
  {
    c as int - '0' as int
  }

  function MarkChar(m: Mark): char {
    if m == 0 then '0' else if m == 1 then '1' else if m == 2 then '2' else '3'
  }

  predicate IsMarks(s: string) {
    |s| == 4 && IsMark(s[0]) && IsMark(s[1]) && IsMark(s[2]) && IsMark(s[3])
  }

  function DecodeMarks(s: string): Marks
    requires IsMarks(s)
  {
    Marks(MarkOf(s[0]), MarkOf(s[1]), MarkOf(s[2]), MarkOf(s[3]))
  }

  function FwIndex(s: Slot): nat {
    if s == A then FIRMWARE_A_INDEX else FIRMWARE_B_INDEX
  }

  function AppIndex(s: Slot): nat {
    if s == A then APPLICATION_A_INDEX else APPLICATION_B_INDEX
  }

  /** What validate_update_bits accepts. */
  predicate ValidUpdate(s: string) {
    IsMarks(s) && DecodeMarks(s).Valid()
  }

  /** validate_update_bits: the loop with its two counters accepts exactly the valid marks. */
  method ValidateUpdateBits(val: string) returns (valid: bool)
    ensures valid <==> ValidUpdate(val)
    ensures valid <==>
      && |val| == 4 && (forall i :: 0 <= i < 4 ==> val[i] in "0123")
      && !(val[0] in "13" && val[2] in "13") && !(val[1] in "13" && val[3] in "13")
  {
    if |val| != 4 {
      return false;
    }
    var uncommittedFw, uncommittedApp := 0, 0;
    for i := 0 to 4
      invariant forall j :: 0 <= j < i ==> IsMark(val[j])
      invariant uncommittedFw ==
        (if i > 0 && Uncommitted(MarkOf(val[0])) then 1 else 0) +
        (if i > 2 && Uncommitted(MarkOf(val[2])) then 1 else 0)
      invariant uncommittedApp ==
        (if i > 1 && Uncommitted(MarkOf(val[1])) then 1 else 0) +
        (if i > 3 && Uncommitted(MarkOf(val[3])) then 1 else 0)
    {
      var state := val[i] as int - '0' as int;
      if state < 0 || state > 3 {
        return false;
      }
      if i == FIRMWARE_A_INDEX || i == FIRMWARE_B_INDEX {
        if state % 2 == 1 {
          uncommittedFw := uncommittedFw + 1;
        }
      } else {
        if state % 2 == 1 {
          uncommittedApp := uncommittedApp + 1;
        }
      }
    }
    return uncommittedFw <= 1 && uncommittedApp <= 1;
  }

  // ----- Numbers -----

  predicate IsDigit(c: char) {
    '0' <= c <= '9'
  }

  function SkipSpace(s: string): string {
    if s != "" && s[0] in " \t\n\r\U{000B}\U{000C}" then SkipSpace(s[1..]) else s
  }

  function LeadingNumber(s: string, acc: nat): nat {
    if s == "" || !IsDigit(s[0]) then acc
    else LeadingNumber(s[1..], 10 * acc + (s[0] as int - '0' as int))
  }

  const TWO_TO_THE_64: nat := 0x1_0000_0000_0000_0000

  /** std::stoul: leading space and a sign are accepted, what follows the digits is ignored, and
      a negative number wraps. */
  function Stoul(s: string): Option<nat> {
    var t := SkipSpace(s);
    var digits := if t != "" && t[0] in "+-" then t[1..] else t;
    if digits == "" || !IsDigit(digits[0]) then None
    else
      var n := LeadingNumber(digits, 0);
      if n >= TWO_TO_THE_64 then None
      else if t[0] == '-' then Some((TWO_TO_THE_64 - n) % TWO_TO_THE_64)
      else Some(n)
  }

  predicate IsNumber(s: string, max: nat) {
    Stoul(s).Some? && Stoul(s).value <= max
  }

  /** A number in decimal. */
  function Decimal(n: nat): (r: string)
    ensures r != "" && forall c :: c in r ==> '0' <= c <= '9'
  {
    var digit := [(n % 10 + '0' as int) as char];
    if n < 10 then digit else Decimal(n / 10) + digit
  }

  lemma {:induction false} DigitsAreRead(digits: string, rest: string, acc: nat)
    requires forall c :: c in digits ==> IsDigit(c)
    ensures LeadingNumber(digits + rest, acc) == LeadingNumber(rest, LeadingNumber(digits, acc))
    decreases |digits|
  {
    if digits == "" {
      assert digits + rest == rest;
    } else {
      assert digits[0] in digits;
      assert (digits + rest)[1..] == digits[1..] + rest;
      DigitsAreRead(digits[1..], rest, 10 * acc + (digits[0] as int - '0' as int));
    }
  }

  lemma {:induction false} DecimalIsRead(n: nat)
    ensures LeadingNumber(Decimal(n), 0) == n
  {
    if n < 10 {
      assert Decimal(n)[1..] == "";
    } else {
      var digit := [(n % 10 + '0' as int) as char];
      DecimalIsRead(n / 10);
      DigitsAreRead(Decimal(n / 10), digit, 0);
      assert digit[1..] == "";
    }
  }

  lemma {:induction false} SpaceIsSkipped(space: string, rest: string)
    requires forall c :: c in space ==> c in " \t\n\r\U{000B}\U{000C}"
    requires rest != "" && rest[0] !in " \t\n\r\U{000B}\U{000C}"
    ensures SkipSpace(space + rest) == rest
    decreases |space|
  {
    if space == "" {
      assert space + rest == rest;
    } else {
      assert (space + rest)[1..] == space[1..] + rest;
      SpaceIsSkipped(space[1..], rest);
    }
  }

  /** std::stoul reads a number behind space and a sign, whatever follows it: a negative one wraps, and
      one of more than 64 bits is refused. */
  lemma StoulReads(space: string, sign: string, n: nat, rest: string)
    requires forall c :: c in space ==> c in " \t\n\r\U{000B}\U{000C}"
    requires sign in {"", "+", "-"} && (rest == "" || !('0' <= rest[0] <= '9'))
    ensures Stoul(space + (sign + (Decimal(n) + rest))) ==
      if n > 0xFFFF_FFFF_FFFF_FFFF then None
      else if sign == "-" && n > 0 then Some(0x1_0000_0000_0000_0000 - n)
      else Some(n)
  {
    var decimal := Decimal(n);
    var digits := decimal + rest;
    assert decimal[0] in decimal && digits[0] == decimal[0];
    hide SkipSpace, LeadingNumber;
    SpaceIsSkipped(space, sign + digits);
    assert sign != "" ==> (sign + digits)[1..] == digits;
    assert sign == "" ==> sign + digits == digits;
    DigitsAreRead(decimal, rest, 0);
    DecimalIsRead(n);
    NothingLeading(rest, n);
  }

  lemma NothingLeading(rest: string, acc: nat)
    requires rest == "" || !IsDigit(rest[0])
    ensures LeadingNumber(rest, acc) == acc
  {
  }

  function StateOf(n: nat): RebootState
    requires n <= 12
  {
    match n
    case 0 => Idle
    case 1 => FwRebootFailed
    case 2 => IncompleteFw
    case 3 => IncompleteApp
    case 4 => IncompleteAppFw
    case 5 => FailedFw
    case 6 => FailedApp
    case 7 => RollbackFwPending
    case 8 => RollbackAppPending
    case 9 => RollbackAppFwPending
    case 10 => IncompleteFwRollback
    case 11 => IncompleteAppRollback
    case 12 => IncompleteAppFwRollback
  }

  function StateText(s: RebootState): string {
    match s
    case Idle => "0"
    case FwRebootFailed => "1"
    case IncompleteFw => "2"
    case IncompleteApp => "3"
    case IncompleteAppFw => "4"
    case FailedFw => "5"
    case FailedApp => "6"
    case RollbackFwPending => "7"
    case RollbackAppPending => "8"
    case RollbackAppFwPending => "9"
    case IncompleteFwRollback => "10"
    case IncompleteAppRollback => "11"
    case IncompleteAppFwRollback => "12"
  }

  lemma DigitText(s: string)
    requires |s| == 1 && IsDigit(s[0])
    ensures Stoul(s) == Some(s[0] as int - '0' as int)
  {
    assert s[1..] == "";
    assert LeadingNumber(s, 0) == LeadingNumber("", s[0] as int - '0' as int);
  }

  lemma TwoDigitText(s: string)
    requires |s| == 2 && IsDigit(s[0]) && IsDigit(s[1])
    ensures Stoul(s) == Some(10 * (s[0] as int - '0' as int) + (s[1] as int - '0' as int))
  {
    assert s[1..][1..] == "";
    assert LeadingNumber(s, 0) == LeadingNumber(s[1..], s[0] as int - '0' as int);
  }

  /** to_string and the checked reading of update_reboot_state are inverse. */
  lemma StateRoundTrip(s: RebootState)
    ensures IsNumber(StateText(s), 12) && StateOf(Stoul(StateText(s)).value) == s
  {
    if |StateText(s)| == 1 {
      DigitText(StateText(s));
    } else {
      TwoDigitText(StateText(s));
    }
  }

  // ----- Slots -----

  function OrderText(head: Slot): string {
    if head == A then "A B" else "B A"
  }

  function RaucText(s: Slot): string {
    if s == A then "rauc.slot=A" else "rauc.slot=B"
  }

  function SlotText(s: Slot): string {
    if s == A then "A" else "B"
  }

  predicate IsOrder(s: string) {
    s == "A B" || s == "B A"
  }

  function DecodeOrder(s: string): Slot {
    if s == "A B" then A else B
  }

  predicate IsRaucCmd(s: string) {
    s == "rauc.slot=A" || s == "rauc.slot=B"
  }

  function DecodeRaucCmd(s: string): Slot {
    if s == "rauc.slot=A" then A else B
  }

  predicate IsApplication(s: string) {
    s == "A" || s == "B"
  }

  function DecodeApplication(s: string): Slot {
    if s == "A" then A else B
  }

  lemma SlotTextRoundTrip(s: Slot)
    ensures IsOrder(OrderText(s)) && DecodeOrder(OrderText(s)) == s
    ensures IsRaucCmd(RaucText(s)) && DecodeRaucCmd(RaucText(s)) == s
    ensures IsApplication(SlotText(s)) && DecodeApplication(SlotText(s)) == s
  {
    assert "A B"[0] != "B A"[0];
    assert "rauc.slot=A"[10] != "rauc.slot=B"[10];
    assert "A"[0] != "B"[0];
  }

  /** No other text is allowed in these variables. */
  lemma SlotTextsExactly(s: string)
    ensures IsOrder(s) <==> s == OrderText(A) || s == OrderText(B)
    ensures IsRaucCmd(s) <==> s == RaucText(A) || s == RaucText(B)
    ensures IsApplication(s) <==> s == SlotText(A) || s == SlotText(B)
  {
  }

  // ----- A whole environment -----

  /** Every variable is present and can be read, whatever validate_update_bits says. */
  predicate Legible(m: map<Key, string>) {
    && Update in m && IsMarks(m[Update])
    && UpdateRebootState in m && IsNumber(m[UpdateRebootState], 12)
    && BootOrder in m && IsOrder(m[BootOrder])
    && BootOrderOld in m && IsOrder(m[BootOrderOld])
    && BootALeft in m && IsNumber(m[BootALeft], 3)
    && BootBLeft in m && IsNumber(m[BootBLeft], 3)
    && RaucCmd in m && IsRaucCmd(m[RaucCmd])
    && Application in m && IsApplication(m[Application])
  }

  /** Every variable has allowed contents. */
  predicate Readable(m: map<Key, string>) {
    Legible(m) && ValidUpdate(m[Update])
  }

  function View(m: map<Key, string>): Env
    requires Legible(m)
  {
    Env(
      DecodeMarks(m[Update]),
      StateOf(Stoul(m[UpdateRebootState]).value),
      DecodeOrder(m[BootOrder]),
      DecodeOrder(m[BootOrderOld]),
      Stoul(m[BootALeft]).value,
      Stoul(m[BootBLeft]).value,
      DecodeRaucCmd(m[RaucCmd]),
      DecodeApplication(m[Application]))
  }

  function MarksText(m: Marks): string {
    [MarkChar(m.fwA), MarkChar(m.appA), MarkChar(m.fwB), MarkChar(m.appB)]
  }

  lemma MarksRoundTrip(m: Marks)
    ensures IsMarks(MarksText(m)) && DecodeMarks(MarksText(m)) == m
  {
  }

  function TriesText(n: Tries): string {
    [MarkChar(n)]
  }

  lemma TriesRoundTrip(n: Tries)
    ensures IsNumber(TriesText(n), 3) && Stoul(TriesText(n)).value == n
  {
    DigitText(TriesText(n));
  }

  /** Every environment has a text. */
  function Text(e: Env): map<Key, string> {
    map[
      Update := MarksText(e.marks),
      UpdateRebootState := StateText(e.state),
      BootOrder := OrderText(e.order),
      BootOrderOld := OrderText(e.orderOld),
      BootALeft := TriesText(e.leftA),
      BootBLeft := TriesText(e.leftB),
      RaucCmd := RaucText(e.slot),
      Application := SlotText(e.app)]
  }

  lemma TextRoundTrip(e: Env)
    ensures Legible(Text(e)) && View(Text(e)) == e
    ensures Readable(Text(e)) <==> e.marks.Valid()
  {
    hide IsMarks, DecodeMarks, MarksText, StateOf, StateText, OrderText, RaucText, SlotText, TriesText, Stoul;
    MarksRoundTrip(e.marks);
    StateRoundTrip(e.state);
    SlotTextRoundTrip(e.order);
    SlotTextRoundTrip(e.orderOld);
    SlotTextRoundTrip(e.slot);
    SlotTextRoundTrip(e.app);
    TriesRoundTrip(e.leftA);
    TriesRoundTrip(e.leftB);
  }

  /** The texts themselves: the places of the marks, the numbers of the states, the names of the slots. */
  lemma TextsAre(e: Env)
    ensures var text := Text(e); var marks := text[Update];
      && |marks| == 4
      && marks[0] as int - '0' as int == e.marks.fwA && marks[1] as int - '0' as int == e.marks.appA
      && marks[2] as int - '0' as int == e.marks.fwB && marks[3] as int - '0' as int == e.marks.appB
      && text[UpdateRebootState] ==
           (match e.state
            case Idle => "0" case FwRebootFailed => "1" case IncompleteFw => "2" case IncompleteApp => "3"
            case IncompleteAppFw => "4" case FailedFw => "5" case FailedApp => "6" case RollbackFwPending => "7"
            case RollbackAppPending => "8" case RollbackAppFwPending => "9" case IncompleteFwRollback => "10"
            case IncompleteAppRollback => "11" case IncompleteAppFwRollback => "12")
      && text[BootOrder] == (if e.order == A then "A B" else "B A")
      && text[BootOrderOld] == (if e.orderOld == A then "A B" else "B A")
      && |text[BootALeft]| == 1 && text[BootALeft][0] as int - '0' as int == e.leftA
      && |text[BootBLeft]| == 1 && text[BootBLeft][0] as int - '0' as int == e.leftB
      && text[RaucCmd] == (if e.slot == A then "rauc.slot=A" else "rauc.slot=B")
      && text[Application] == (if e.app == A then "A" else "B")
  {
  }

  /** Setting one character of "update" sets one mark. */
  lemma MarkWritten(s: string, slot: Slot, m: Mark)
    requires IsMarks(s)
    ensures IsMarks(s[FwIndex(slot) := MarkChar(m)]) && IsMarks(s[AppIndex(slot) := MarkChar(m)])
    ensures DecodeMarks(s[FwIndex(slot) := MarkChar(m)]) == DecodeMarks(s).WithFw(slot, m)
    ensures DecodeMarks(s[AppIndex(slot) := MarkChar(m)]) == DecodeMarks(s).WithApp(slot, m)
  {
  }
}
