/** What the CRM export parser guarantees, stated against definitions that
    do not mention its accumulator: which field a slot ends up holding,
    how many warnings of each kind a line draws, which customers come out
    and in what order. */
module CrmExportProperties {

  import opened Wrappers
  import JsString
  import opened JsNumber
  import CustomerId
  import opened Customers
  import opened CrmExport

  // ---------------------------------------------------------------------
  // Slots and warning kinds

  /** The three slots of the accumulator. */
  datatype Slot = IdSlot | LatitudeSlot | LongitudeSlot

  /** The slot a key fills; only `id`, `lat` and `long` are known, and case
      matters. */
  function SlotOf(key: string): Option<Slot> {
    if key == "id" then Some(IdSlot)
    else if key == "lat" then Some(LatitudeSlot)
    else if key == "long" then Some(LongitudeSlot)
    else None
  }

  /** `field` is a field for `slot` whose value passes that slot's check:
      the id pattern for `id`, a non-NaN `parseFloat` for the coordinates. */
  predicate Accepts(field: string, slot: Slot) {
    SlotOf(FieldKey(field)) == Some(slot)
    && var text := ToJsString(FieldValue(field));
    match slot
    case IdSlot => CustomerId.Test(text)
    case _ => ParseFloat(text).Some?
  }

  /** The value an accepted field stores in its slot. */
  function IdOf(field: string): string {
    ToJsString(FieldValue(field))
  }

  function NumberOf(field: string, slot: Slot): Num
    requires slot != IdSlot && Accepts(field, slot)
  {
    ParseFloat(ToJsString(FieldValue(field))).value
  }

  /** The last field of `fields` accepted for `slot`, if any. */
  function LastAccepted(fields: seq<string>, slot: Slot): (r: Option<string>)
    ensures r.Some? ==> Accepts(r.value, slot)
  {
    if fields == [] then None
    else if Accepts(fields[|fields| - 1], slot) then Some(fields[|fields| - 1])
    else LastAccepted(fields[..|fields| - 1], slot)
  }

  /** What `slot` holds after `fields` under "the last accepted field wins". */
  function IdAfter(fields: seq<string>): Option<string> {
    match LastAccepted(fields, IdSlot)
    case None => None
    case Some(f) => Some(IdOf(f))
  }

  function NumberAfter(fields: seq<string>, slot: Slot): Option<Num>
    requires slot != IdSlot
  {
    match LastAccepted(fields, slot)
    case None => None
    case Some(f) => Some(NumberOf(f, slot))
  }

  /** The kinds of warning, without their payloads. */
  datatype Kind = Repeat(slot: Slot) | Rejected(rejectedSlot: Slot) | Unknown | IncompleteLine | DuplicateCustomer

  function KindOf(w: Warning): Kind {
    match w
    case MultipleIds(_, _) => Repeat(IdSlot)
    case InvalidId(_) => Rejected(IdSlot)
    case MultipleLatitudes(_, _) => Repeat(LatitudeSlot)
    case LatitudeNaN(_) => Rejected(LatitudeSlot)
    case MultipleLongitudes(_, _) => Repeat(LongitudeSlot)
    case LongitudeNaN(_) => Rejected(LongitudeSlot)
    case UnknownField(_, _) => Unknown
    case Incomplete(_) => IncompleteLine
    case DuplicateId(_) => DuplicateCustomer
  }

  /** The number of warnings of kind `k` in `ws`. */
  function CountKind(ws: seq<Warning>, k: Kind): nat {
    if ws == [] then 0
    else CountKind(ws[..|ws| - 1], k) + (if KindOf(ws[|ws| - 1]) == k then 1 else 0)
  }

  lemma {:induction false} CountKindAppend(a: seq<Warning>, b: seq<Warning>, k: Kind)
    ensures CountKind(a + b, k) == CountKind(a, k) + CountKind(b, k)
    decreases |b|
  {
    if b != [] {
      assert (a + b)[..|a + b| - 1] == a + b[..|b| - 1];
      assert (a + b)[|a + b| - 1] == b[|b| - 1];
      CountKindAppend(a, b[..|b| - 1], k);
    } else {
      assert a + b == a;
    }
  }

  /** The fields for `slot` that arrive when an earlier field has already
      filled it. */
  function RepeatCount(fields: seq<string>, slot: Slot): nat {
    if fields == [] then 0
    else
      var prefix := fields[..|fields| - 1];
      RepeatCount(prefix, slot)
      + (if SlotOf(FieldKey(fields[|fields| - 1])) == Some(slot) && LastAccepted(prefix, slot).Some? then 1 else 0)
  }

  /** The fields for `slot` whose value fails that slot's check. */
  function RejectCount(fields: seq<string>, slot: Slot): nat {
    if fields == [] then 0
    else
      var f := fields[|fields| - 1];
      RejectCount(fields[..|fields| - 1], slot)
      + (if SlotOf(FieldKey(f)) == Some(slot) && !Accepts(f, slot) then 1 else 0)
  }

  /** The fields whose key is none of `id`, `lat`, `long`. */
  function UnknownCount(fields: seq<string>): nat {
    if fields == [] then 0
    else UnknownCount(fields[..|fields| - 1]) + (if SlotOf(FieldKey(fields[|fields| - 1])).None? then 1 else 0)
  }

  // ---------------------------------------------------------------------
  // Fields, keys and values

  /** A field without a colon is all key and has no value. */
  lemma KeyValueNoColon(field: string)
    requires ':' !in field
    ensures KeyValue(field) == (JsString.Trim(field), None)
  {
    JsString.SplitWithout(field, ':');
  }

  /** `key:value` gives the trimmed key and the trimmed value. */
  lemma KeyValuePair(key: string, value: string)
    requires ':' !in key && ':' !in value
    ensures KeyValue(key + ":" + value) == (JsString.Trim(key), Some(JsString.Trim(value)))
  {
    JsString.SplitAt(key, ':', value);
    JsString.SplitWithout(value, ':');
  }

  /** The field is split at every colon, not only the first: what follows
      a second colon is dropped, so `id: a:b` has the value `a`. */
  lemma KeyValueExtraColons(key: string, value: string, rest: string)
    requires ':' !in key && ':' !in value
    ensures KeyValue(key + ":" + value + ":" + rest) == (JsString.Trim(key), Some(JsString.Trim(value)))
  {
    assert key + ":" + value + ":" + rest == key + [':'] + (value + [':'] + rest);
    JsString.SplitAt(key, ':', value + ":" + rest);
    JsString.SplitAt(value, ':', rest);
  }

  // ---------------------------------------------------------------------
  // One line's fields

  /** What one field does to the accumulator: an accepted field overwrites
      its slot, anything else leaves the accumulator as it was. */
  function Stored(acc: Acc, field: string): Acc {
    if Accepts(field, IdSlot) then acc.(id := Some(IdOf(field)))
    else if Accepts(field, LatitudeSlot) then acc.(latitude := Some(NumberOf(field, LatitudeSlot)))
    else if Accepts(field, LongitudeSlot) then acc.(longitude := Some(NumberOf(field, LongitudeSlot)))
    else acc
  }

  lemma StepFieldStores(acc: Acc, field: string)
    ensures StepField(acc, field).0 == Stored(acc, field)
  {
  }

  /** The accumulator "the last accepted field wins" prescribes. */
  function After(fields: seq<string>): Acc {
    Acc(IdAfter(fields), NumberAfter(fields, LatitudeSlot), NumberAfter(fields, LongitudeSlot))
  }

  /** One more field moves the prescribed accumulator as `Stored` does. */
  lemma AfterStep(fields: seq<string>)
    requires fields != []
    ensures After(fields) == Stored(After(fields[..|fields| - 1]), fields[|fields| - 1])
  {
  }

  /** Last valid value wins: after the fields of a line, each slot holds
      the value of the last field accepted for it, and stays `undefined`
      when no field was accepted. Rejected fields and unknown keys leave no
      trace in the accumulator. */
  lemma {:induction false} SlotsHoldLastAccepted(fields: seq<string>)
    ensures ReduceFields(fields).0 == After(fields)
  {
    if fields != [] {
      var prefix := fields[..|fields| - 1];
      var f := fields[|fields| - 1];
      SlotsHoldLastAccepted(prefix);
      var acc := ReduceFields(prefix).0;
      assert ReduceFields(fields).0 == StepField(acc, f).0;
      StepFieldStores(acc, f);
      AfterStep(fields);
    }
  }

  /** `slot` already holds a value in `acc`. */
  predicate SlotFilled(acc: Acc, slot: Slot) {
    match slot
    case IdSlot => acc.id.Some?
    case LatitudeSlot => acc.latitude.Some?
    case LongitudeSlot => acc.longitude.Some?
  }

  /** How many warnings of kind `k` one field draws from accumulator `acc`. */
  function FieldDraws(acc: Acc, field: string, k: Kind): nat {
    var slot := SlotOf(FieldKey(field));
    match k
    case Repeat(s) => if slot == Some(s) && SlotFilled(acc, s) then 1 else 0
    case Rejected(s) => if slot == Some(s) && !Accepts(field, s) then 1 else 0
    case Unknown => if slot.None? then 1 else 0
    case _ => 0
  }

  lemma StepFieldDraws(acc: Acc, field: string, k: Kind)
    ensures CountKind(StepField(acc, field).1, k) == FieldDraws(acc, field, k)
  {
    var pushed := StepField(acc, field).1;
    var key := FieldKey(field);
    match SlotOf(key)
    case None =>
      assert pushed == [UnknownField(key, FieldValue(field))];
      CountKindSmall(pushed, k);
    case Some(s) =>
      SlotFieldPushed(acc, field, s);
      CountShape(pushed, s, SlotFilled(acc, s), Accepts(field, s), k);
  }

  /** The count of a kind among the warnings of a field for `s`: a `Repeat`
      when the slot was filled, then a `Rejected` when the value failed. */
  lemma CountShape(pushed: seq<Warning>, s: Slot, filled: bool, accepted: bool, k: Kind)
    requires |pushed| == (if filled then 1 else 0) + (if accepted then 0 else 1)
    requires filled ==> KindOf(pushed[0]) == Repeat(s)
    requires !accepted ==> KindOf(pushed[|pushed| - 1]) == Rejected(s)
    ensures CountKind(pushed, k)
      == (if k == Repeat(s) && filled then 1 else 0) + (if k == Rejected(s) && !accepted then 1 else 0)
  {
    CountKindSmall(pushed, k);
  }

  /** The warnings a field for a known slot draws: a `Repeat` when the slot
      is already filled, then a `Rejected` when the value fails the check. */
  lemma SlotFieldPushed(acc: Acc, field: string, s: Slot)
    requires SlotOf(FieldKey(field)) == Some(s)
    ensures var pushed := StepField(acc, field).1;
      |pushed| == (if SlotFilled(acc, s) then 1 else 0) + (if Accepts(field, s) then 0 else 1)
      && (SlotFilled(acc, s) ==> KindOf(pushed[0]) == Repeat(s))
      && (!Accepts(field, s) ==> KindOf(pushed[|pushed| - 1]) == Rejected(s))
  {
  }

  /** The count of a kind in a list of at most two warnings. */
  lemma CountKindSmall(ws: seq<Warning>, k: Kind)
    requires |ws| <= 2
    ensures CountKind(ws, k)
      == (if |ws| >= 1 && KindOf(ws[0]) == k then 1 else 0) + (if |ws| == 2 && KindOf(ws[1]) == k then 1 else 0)
  {
    if |ws| >= 1 {
      assert ws[..|ws| - 1][..0] == [];
      if |ws| == 2 {
        assert ws[..1] == [ws[0]];
      }
    }
  }

  /** The number of warnings of kind `k` that `fields` should draw. */
  function Expected(fields: seq<string>, k: Kind): nat {
    match k
    case Repeat(s) => RepeatCount(fields, s)
    case Rejected(s) => RejectCount(fields, s)
    case Unknown => UnknownCount(fields)
    case _ => 0
  }

  /** The warnings of the last field are added to those of the others. */
  lemma ReduceFieldsDraws(fields: seq<string>, k: Kind)
    requires fields != []
    ensures var prefix := fields[..|fields| - 1];
      CountKind(ReduceFields(fields).1, k)
      == CountKind(ReduceFields(prefix).1, k) + FieldDraws(ReduceFields(prefix).0, fields[|fields| - 1], k)
  {
    var prefix := fields[..|fields| - 1];
    var acc := ReduceFields(prefix).0;
    var pushed := StepField(acc, fields[|fields| - 1]).1;
    assert ReduceFields(fields).1 == ReduceFields(prefix).1 + pushed;
    CountKindAppend(ReduceFields(prefix).1, pushed, k);
    StepFieldDraws(acc, fields[|fields| - 1], k);
  }

  /** A slot is filled exactly when some field was accepted for it. */
  lemma FilledIff(fields: seq<string>, slot: Slot)
    ensures SlotFilled(ReduceFields(fields).0, slot) <==> LastAccepted(fields, slot).Some?
  {
    SlotsHoldLastAccepted(fields);
  }

  lemma {:induction false} KindCountMatches(fields: seq<string>, k: Kind)
    ensures CountKind(ReduceFields(fields).1, k) == Expected(fields, k)
  {
    if fields == [] {
      assert ReduceFields(fields).1 == [];
    } else {
      var prefix := fields[..|fields| - 1];
      KindCountMatches(prefix, k);
      ReduceFieldsDraws(fields, k);
      match k
      case Repeat(s) =>
        FilledIff(prefix, s);
      case _ =>
    }
  }

  /** The warnings a line's fields draw, kind by kind: one "Multiple"
      warning per field whose slot is already filled, whether or not its
      own value is valid; one rejection per invalid value; one warning per
      unknown key; and nothing that belongs to the line as a whole. */
  lemma FieldWarningsAccounted(fields: seq<string>)
    ensures var ws := ReduceFields(fields).1;
      && (forall slot :: CountKind(ws, Repeat(slot)) == RepeatCount(fields, slot))
      && (forall slot :: CountKind(ws, Rejected(slot)) == RejectCount(fields, slot))
      && CountKind(ws, Unknown) == UnknownCount(fields)
      && CountKind(ws, IncompleteLine) == 0
      && CountKind(ws, DuplicateCustomer) == 0
  {
    forall k: Kind
      ensures CountKind(ReduceFields(fields).1, k) == Expected(fields, k)
    {
      KindCountMatches(fields, k);
    }
  }

  // ---------------------------------------------------------------------
  // Lines

  /** The customer a line yields, read off its fields without the
      accumulator: one exists exactly when every slot has an accepted field,
      and it takes the values of the last accepted ones. */
  function LineCustomer(line: string): Option<Customer> {
    var fields := Fields(line);
    match (LastAccepted(fields, IdSlot), LastAccepted(fields, LatitudeSlot), LastAccepted(fields, LongitudeSlot))
    case (Some(i), Some(la), Some(lo)) =>
      Some(Customer(IdOf(i), Position(NumberOf(la, LatitudeSlot), NumberOf(lo, LongitudeSlot))))
    case _ => None
  }

  function AsSeq<T>(o: Option<T>): seq<T> {
    match o
    case None => []
    case Some(x) => [x]
  }

  /** The customers of the lines, one per line that yields one, in order. */
  function Collect(lines: seq<string>): seq<Customer> {
    if lines == [] then []
    else Collect(lines[..|lines| - 1]) + AsSeq(LineCustomer(lines[|lines| - 1]))
  }

  /** The non-empty lines, in order. */
  function NonEmptyLines(lines: seq<string>): (r: seq<string>)
    ensures forall k :: 0 <= k < |r| ==> |r[k]| > 0
  {
    if lines == [] then []
    else NonEmptyLines(lines[..|lines| - 1]) + (if |lines[|lines| - 1]| > 0 then [lines[|lines| - 1]] else [])
  }

  /** The ids `DuplicateId` warnings name, in order. */
  function DuplicateIds(ws: seq<Warning>): seq<string> {
    if ws == [] then []
    else DuplicateIds(ws[..|ws| - 1]) + (if ws[|ws| - 1].DuplicateId? then [ws[|ws| - 1].id] else [])
  }

  lemma {:induction false} DuplicateIdsAppend(a: seq<Warning>, b: seq<Warning>)
    ensures DuplicateIds(a + b) == DuplicateIds(a) + DuplicateIds(b)
    decreases |b|
  {
    if b == [] {
      assert a + b == a;
    } else {
      assert (a + b)[..|a + b| - 1] == a + b[..|b| - 1];
      assert (a + b)[|a + b| - 1] == b[|b| - 1];
      DuplicateIdsAppend(a, b[..|b| - 1]);
    }
  }

  lemma {:induction false} DuplicateIdsCounted(ws: seq<Warning>)
    ensures |DuplicateIds(ws)| == CountKind(ws, DuplicateCustomer)
  {
    if ws != [] {
      DuplicateIdsCounted(ws[..|ws| - 1]);
    }
  }

  /** The ids of the customers that repeat the id of an earlier customer,
      in order. */
  function RepeatedIds(customers: seq<Customer>): seq<string> {
    if customers == [] then []
    else
      var prefix := customers[..|customers| - 1];
      var c := customers[|customers| - 1];
      RepeatedIds(prefix) + (if HasId(prefix, c.id) then [c.id] else [])
  }

  /** The accumulator of a line is complete exactly when the line yields a
      customer, and then it holds that customer's values. */
  lemma LineAccumulator(line: string)
    ensures var acc := ReduceFields(Fields(line)).0;
      && (Complete(acc) <==> LineCustomer(line).Some?)
      && (Complete(acc) ==>
            LineCustomer(line).value == Customer(acc.id.value, Position(acc.latitude.value, acc.longitude.value)))
  {
    SlotsHoldLastAccepted(Fields(line));
  }

  lemma EmptyLineYieldsNothing(line: string)
    requires |line| == 0
    ensures LineCustomer(line) == None
  {
    assert JsString.Split(line, ",") == [""];
    assert Fields(line) == [];
  }

  /** What one line adds to the customers. */
  lemma StepLineCustomers(r: ParseResult, line: string)
    ensures StepLine(r, line).customers == r.customers + AsSeq(LineCustomer(line))
  {
    if |line| == 0 {
      EmptyLineYieldsNothing(line);
    } else {
      LineAccumulator(line);
    }
  }

  /** The warnings a non-empty line adds after those of its fields, given
      the customer it yields (if any) and its accumulator. */
  function LineTail(r: ParseResult, c: Option<Customer>, acc: Acc): seq<Warning> {
    match c
    case None => [Incomplete(acc)]
    case Some(c) => if HasId(r.customers, c.id) then [DuplicateId(c.id)] else []
  }

  lemma StepLineShape(r: ParseResult, line: string)
    requires |line| > 0
    ensures var reduced := ReduceFields(Fields(line));
      StepLine(r, line).warnings == r.warnings + reduced.1 + LineTail(r, LineCustomer(line), reduced.0)
  {
    LineAccumulator(line);
  }

  lemma CountKindAppend3(a: seq<Warning>, b: seq<Warning>, c: seq<Warning>, k: Kind)
    ensures CountKind(a + b + c, k) == CountKind(a, k) + CountKind(b, k) + CountKind(c, k)
  {
    CountKindAppend(a, b, k);
    CountKindAppend(a + b, c, k);
  }

  lemma DuplicateIdsAppend3(a: seq<Warning>, b: seq<Warning>, c: seq<Warning>)
    ensures DuplicateIds(a + b + c) == DuplicateIds(a) + DuplicateIds(b) + DuplicateIds(c)
  {
    DuplicateIdsAppend(a, b);
    DuplicateIdsAppend(a + b, c);
  }

  lemma TailIncomplete(r: ParseResult, c: Option<Customer>, acc: Acc)
    ensures CountKind(LineTail(r, c, acc), IncompleteLine) == if c.None? then 1 else 0
  {
    var tail := LineTail(r, c, acc);
    if |tail| == 1 {
      assert tail[..0] == [];
    }
  }

  /** The id a new customer `c` repeats, if an earlier one has it. */
  function Repeated(customers: seq<Customer>, c: Option<Customer>): seq<string> {
    match c
    case Some(c) => if HasId(customers, c.id) then [c.id] else []
    case None => []
  }

  lemma TailDuplicates(r: ParseResult, c: Option<Customer>, acc: Acc)
    ensures DuplicateIds(LineTail(r, c, acc)) == Repeated(r.customers, c)
  {
    var tail := LineTail(r, c, acc);
    if |tail| == 1 {
      assert tail[..0] == [];
    }
  }

  /** A non-empty line adds one `Incomplete` warning exactly when it
      yields no customer; an empty line adds none. */
  lemma StepLineIncomplete(r: ParseResult, line: string)
    ensures CountKind(StepLine(r, line).warnings, IncompleteLine)
      == CountKind(r.warnings, IncompleteLine) + (if |line| > 0 && LineCustomer(line).None? then 1 else 0)
  {
    if |line| == 0 {
      EmptyLineYieldsNothing(line);
    } else {
      var fields := Fields(line);
      StepLineShape(r, line);
      KindCountMatches(fields, IncompleteLine);
      var reduced := ReduceFields(fields);
      CountKindAppend3(r.warnings, reduced.1, LineTail(r, LineCustomer(line), reduced.0), IncompleteLine);
      TailIncomplete(r, LineCustomer(line), reduced.0);
    }
  }

  /** A line adds a `DuplicateId` warning exactly when it yields a customer
      whose id an earlier customer already has, and the warning names that
      id. */
  lemma StepLineDuplicates(r: ParseResult, line: string)
    ensures DuplicateIds(StepLine(r, line).warnings) == DuplicateIds(r.warnings) + Repeated(r.customers, LineCustomer(line))
  {
    if |line| == 0 {
      EmptyLineYieldsNothing(line);
      assert DuplicateIds(r.warnings) + [] == DuplicateIds(r.warnings);
    } else {
      var reduced := ReduceFields(Fields(line));
      StepLineShape(r, line);
      FieldsDrawNoDuplicate(Fields(line));
      TailDuplicates(r, LineCustomer(line), reduced.0);
      WarningsDuplicates(r.warnings, reduced.1, LineTail(r, LineCustomer(line), reduced.0));
    }
  }

  /** Field warnings without duplicates between earlier warnings and a tail
      leave the tail's duplicate ids. */
  lemma WarningsDuplicates(before: seq<Warning>, fieldWarnings: seq<Warning>, tail: seq<Warning>)
    requires DuplicateIds(fieldWarnings) == []
    ensures DuplicateIds(before + fieldWarnings + tail) == DuplicateIds(before) + DuplicateIds(tail)
  {
    DuplicateIdsAppend3(before, fieldWarnings, tail);
    assert DuplicateIds(before) + [] == DuplicateIds(before);
  }

  /** The fields of a line never draw a duplicate-id warning. */
  lemma FieldsDrawNoDuplicate(fields: seq<string>)
    ensures DuplicateIds(ReduceFields(fields).1) == []
  {
    KindCountMatches(fields, DuplicateCustomer);
    DuplicateIdsCounted(ReduceFields(fields).1);
  }

  /** The customers come out in the order of their lines, one for each line
      whose fields fill every slot. */
  lemma {:induction false} CustomersInLineOrder(lines: seq<string>)
    ensures Parse(lines).customers == Collect(lines)
  {
    if lines != [] {
      CustomersInLineOrder(lines[..|lines| - 1]);
      StepLineCustomers(Parse(lines[..|lines| - 1]), lines[|lines| - 1]);
    }
  }

  /** Every non-empty line is accounted for: it gives either a customer or
      an `Incomplete` warning, never both, and empty lines give neither. */
  lemma {:induction false} EveryLineAccounted(lines: seq<string>)
    ensures |Parse(lines).customers| + CountKind(Parse(lines).warnings, IncompleteLine) == |NonEmptyLines(lines)|
  {
    if lines != [] {
      var prefix := lines[..|lines| - 1];
      EveryLineAccounted(prefix);
      StepLineCustomers(Parse(prefix), lines[|lines| - 1]);
      StepLineIncomplete(Parse(prefix), lines[|lines| - 1]);
    }
  }

  /** A customer whose id an earlier customer already has is kept, and
      draws exactly one `DuplicateId` warning naming that id; no other
      warning names an id this way. */
  lemma {:induction false} DuplicateIdsWarned(lines: seq<string>)
    ensures DuplicateIds(Parse(lines).warnings) == RepeatedIds(Parse(lines).customers)
  {
    if lines != [] {
      var prefix := lines[..|lines| - 1];
      var line := lines[|lines| - 1];
      DuplicateIdsWarned(prefix);
      StepLineCustomers(Parse(prefix), line);
      StepLineDuplicates(Parse(prefix), line);
      var cs := Parse(lines).customers;
      if LineCustomer(line).Some? {
        assert cs[..|cs| - 1] == Parse(prefix).customers;
      } else {
        assert cs == Parse(prefix).customers;
      }
    }
  }

  /** Every customer's id passes the id check. */
  lemma {:induction false} IdsMatchPattern(lines: seq<string>)
    ensures forall c :: c in Parse(lines).customers ==> CustomerId.Test(c.id)
  {
    if lines != [] {
      var prefix := lines[..|lines| - 1];
      IdsMatchPattern(prefix);
      StepLineCustomers(Parse(prefix), lines[|lines| - 1]);
    }
  }

  /** Empty lines, such as the one after a final line terminator, change
      nothing: parsing the lines is parsing the non-empty ones. */
  lemma {:induction false} EmptyLinesIgnored(lines: seq<string>)
    ensures Parse(lines) == Parse(NonEmptyLines(lines))
  {
    if lines != [] {
      var prefix := lines[..|lines| - 1];
      var line := lines[|lines| - 1];
      EmptyLinesIgnored(prefix);
      if |line| > 0 {
        var ne := NonEmptyLines(lines);
        assert ne == NonEmptyLines(prefix) + [line];
        assert ne[..|ne| - 1] == NonEmptyLines(prefix) && ne[|ne| - 1] == line;
        assert Parse(ne) == StepLine(Parse(NonEmptyLines(prefix)), line);
        assert Parse(lines) == StepLine(Parse(prefix), line);
      } else {
        assert Parse(lines) == Parse(prefix);
        assert NonEmptyLines(lines) == NonEmptyLines(prefix);
      }
    }
  }

  /** A line of nothing but whitespace is not empty, so it is read, has no
      fields, and draws exactly one `Incomplete` warning with every slot
      `undefined`. */
  lemma BlankLineIncomplete(r: ParseResult, line: string)
    requires |line| > 0 && JsString.AllWhitespace(line)
    ensures StepLine(r, line) == ParseResult(r.customers, r.warnings + [Incomplete(EmptyAcc)])
  {
    forall i | 0 <= i < |line|
      ensures line[i] != ','
    {
      assert JsString.IsWhitespace(line[i]);
    }
    JsString.SplitWithout(line, ',');
    JsString.TrimAllWhitespace(line);
    assert TrimmedNonEmpty([line]) == [] by {
      assert [line][0] == line && [line][1..] == [];
    }
  }

  // ---------------------------------------------------------------------
  // A well-formed line

  /** A value as it can stand in a field unchanged: not empty, no
      whitespace at either end, and neither a comma nor a colon in it. */
  predicate PlainValue(v: string) {
    v != [] && !JsString.IsWhitespace(v[0]) && !JsString.IsWhitespace(v[|v| - 1])
    && ',' !in v && ':' !in v
  }

  /** The field `key: v`. */
  function Field(key: string, v: string): string {
    key + ": " + v
  }

  /** The line `id: X, lat: A, long: B`, as the exports are written. */
  function WellFormed(x: string, a: string, b: string): string {
    Field("id", x) + ", " + Field("lat", a) + ", " + Field("long", b)
  }

  /** A field with a plain key and a plain value is left alone by `trim`
      and has no comma. */
  lemma PlainFieldTrimmed(key: string, v: string)
    requires PlainValue(key) && PlainValue(v)
    ensures JsString.Trim(Field(key, v)) == Field(key, v) && ',' !in Field(key, v)
  {
    var f := Field(key, v);
    assert f[0] == key[0] && f[|f| - 1] == v[|v| - 1];
    JsString.TrimNoOp(f);
  }

  /** A field with a plain key and a plain value has that key and that
      value. */
  lemma PlainField(key: string, v: string)
    requires PlainValue(key) && PlainValue(v)
    ensures KeyValue(Field(key, v)) == (key, Some(v))
  {
    assert Field(key, v) == key + ":" + (" " + v);
    KeyValuePair(key, " " + v);
    JsString.TrimNoOp(key);
    JsString.TrimLeadingSpace(v);
  }

  /** `ReduceFields` takes one more field by one more `StepField`. */
  lemma ReduceFieldsSnoc(fields: seq<string>, f: string)
    ensures var before := ReduceFields(fields);
      var step := StepField(before.0, f);
      ReduceFields(fields + [f]) == (step.0, before.1 + step.1)
  {
    assert (fields + [f])[..|fields|] == fields;
  }

  /** `trim` then drop the empty: a first piece that trims to something
      is kept, trimmed. */
  lemma TrimmedNonEmptyCons(p: string, rest: seq<string>)
    requires JsString.Trim(p) != []
    ensures TrimmedNonEmpty([p] + rest) == [JsString.Trim(p)] + TrimmedNonEmpty(rest)
  {
    assert ([p] + rest)[0] == p && ([p] + rest)[1..] == rest;
  }

  /** A well-formed line splits at its two commas. */
  lemma WellFormedSplit(x: string, a: string, b: string)
    requires PlainValue(x) && PlainValue(a) && PlainValue(b)
    ensures JsString.Split(WellFormed(x, a, b), ",")
      == [Field("id", x), " " + Field("lat", a), " " + Field("long", b)]
  {
    var f1, p2, p3 := Field("id", x), " " + Field("lat", a), " " + Field("long", b);
    assert WellFormed(x, a, b) == f1 + [','] + (p2 + [','] + p3);
    assert ',' !in f1 && ',' !in p2 && ',' !in p3;
    JsString.SplitAt(f1, ',', p2 + [','] + p3);
    JsString.SplitAt(p2, ',', p3);
    JsString.SplitWithout(p3, ',');
  }

  /** Three pieces that trim to non-empty fields are kept, trimmed. */
  lemma TrimmedThree(p1: string, p2: string, p3: string)
    requires JsString.Trim(p1) != [] && JsString.Trim(p2) != [] && JsString.Trim(p3) != []
    ensures TrimmedNonEmpty([p1, p2, p3]) == [JsString.Trim(p1), JsString.Trim(p2), JsString.Trim(p3)]
  {
    TrimmedNonEmptyCons(p3, []);
    TrimmedNonEmptyCons(p2, [p3]);
    TrimmedNonEmptyCons(p1, [p2, p3]);
    assert [p2] + [p3] == [p2, p3] && [p1] + [p2, p3] == [p1, p2, p3];
  }

  /** A well-formed line has exactly its three fields. */
  lemma WellFormedFields(x: string, a: string, b: string)
    requires PlainValue(x) && PlainValue(a) && PlainValue(b)
    ensures Fields(WellFormed(x, a, b)) == [Field("id", x), Field("lat", a), Field("long", b)]
  {
    var f1, f2, f3 := Field("id", x), Field("lat", a), Field("long", b);
    WellFormedSplit(x, a, b);
    PlainFieldTrimmed("id", x);
    PlainFieldTrimmed("lat", a);
    PlainFieldTrimmed("long", b);
    JsString.TrimLeadingSpace(f2);
    JsString.TrimLeadingSpace(f3);
    TrimmedThree(f1, " " + f2, " " + f3);
  }

  /** The id field of a well-formed line fills the empty id slot. */
  lemma IdStep(fields: seq<string>, x: string)
    requires ReduceFields(fields).0.id.None? && PlainValue(x) && CustomerId.Test(x)
    ensures var before := ReduceFields(fields);
      ReduceFields(fields + [Field("id", x)]) == (before.0.(id := Some(x)), before.1)
  {
    IdField(ReduceFields(fields).0, x);
    ReduceFieldsSnoc(fields, Field("id", x));
    assert ReduceFields(fields).1 + [] == ReduceFields(fields).1;
  }

  lemma IdField(acc: Acc, x: string)
    requires acc.id.None? && PlainValue(x) && CustomerId.Test(x)
    ensures StepField(acc, Field("id", x)) == (acc.(id := Some(x)), [])
  {
    PlainField("id", x);
  }

  /** The latitude field of a well-formed line fills the empty latitude
      slot. */
  lemma LatStep(fields: seq<string>, a: string)
    requires ReduceFields(fields).0.latitude.None? && PlainValue(a) && ParseFloat(a).Some?
    ensures var before := ReduceFields(fields);
      ReduceFields(fields + [Field("lat", a)]) == (before.0.(latitude := ParseFloat(a)), before.1)
  {
    LatField(ReduceFields(fields).0, a);
    ReduceFieldsSnoc(fields, Field("lat", a));
    assert ReduceFields(fields).1 + [] == ReduceFields(fields).1;
  }

  lemma LatField(acc: Acc, a: string)
    requires acc.latitude.None? && PlainValue(a) && ParseFloat(a).Some?
    ensures StepField(acc, Field("lat", a)) == (acc.(latitude := ParseFloat(a)), [])
  {
    PlainField("lat", a);
  }

  /** The longitude field of a well-formed line fills the empty longitude
      slot. */
  lemma LongStep(fields: seq<string>, b: string)
    requires ReduceFields(fields).0.longitude.None? && PlainValue(b) && ParseFloat(b).Some?
    ensures var before := ReduceFields(fields);
      ReduceFields(fields + [Field("long", b)]) == (before.0.(longitude := ParseFloat(b)), before.1)
  {
    LongField(ReduceFields(fields).0, b);
    ReduceFieldsSnoc(fields, Field("long", b));
    assert ReduceFields(fields).1 + [] == ReduceFields(fields).1;
  }

  lemma LongField(acc: Acc, b: string)
    requires acc.longitude.None? && PlainValue(b) && ParseFloat(b).Some?
    ensures StepField(acc, Field("long", b)) == (acc.(longitude := ParseFloat(b)), [])
  {
    PlainField("long", b);
  }

  /** The three fields of a well-formed line with valid values fill the
      three slots and draw no warning. */
  lemma WellFormedReduce(x: string, a: string, b: string)
    requires PlainValue(x) && PlainValue(a) && PlainValue(b)
    requires CustomerId.Test(x) && ParseFloat(a).Some? && ParseFloat(b).Some?
    ensures ReduceFields([Field("id", x), Field("lat", a), Field("long", b)])
      == (Acc(Some(x), ParseFloat(a), ParseFloat(b)), [])
  {
    var f1, f2, f3 := Field("id", x), Field("lat", a), Field("long", b);
    IdStep([], x);
    assert [] + [f1] == [f1];
    LatStep([f1], a);
    assert [f1] + [f2] == [f1, f2];
    LongStep([f1, f2], b);
    assert [f1, f2] + [f3] == [f1, f2, f3];
  }

  /** A line whose fields fill every slot without a warning adds its
      customer, and no warning unless an earlier customer has its id. */
  lemma CleanLine(r: ParseResult, line: string, acc: Acc)
    requires |line| > 0 && ReduceFields(Fields(line)) == (acc, []) && Complete(acc)
    ensures StepLine(r, line)
      == ParseResult(r.customers + [Customer(acc.id.value, Position(acc.latitude.value, acc.longitude.value))],
                     r.warnings + (if HasId(r.customers, acc.id.value) then [DuplicateId(acc.id.value)] else []))
  {
    var duplicate := if HasId(r.customers, acc.id.value) then [DuplicateId(acc.id.value)] else [];
    assert r.warnings + [] + duplicate == r.warnings + duplicate;
  }

  /** A well-formed line with a valid id and two numbers adds exactly its
      customer, and no warning unless an earlier customer has the same id. */
  lemma WellFormedLine(r: ParseResult, x: string, a: string, b: string)
    requires PlainValue(x) && PlainValue(a) && PlainValue(b)
    requires CustomerId.Test(x) && ParseFloat(a).Some? && ParseFloat(b).Some?
    ensures StepLine(r, WellFormed(x, a, b))
      == ParseResult(r.customers + [Customer(x, Position(ParseFloat(a).value, ParseFloat(b).value))],
                     r.warnings + (if HasId(r.customers, x) then [DuplicateId(x)] else []))
  {
    WellFormedFields(x, a, b);
    WellFormedReduce(x, a, b);
    CleanLine(r, WellFormed(x, a, b), Acc(Some(x), ParseFloat(a), ParseFloat(b)));
  }

  /** `Parse` reads one more line by one more `StepLine`. */
  lemma ParseSnoc(lines: seq<string>, i: nat)
    requires i < |lines|
    ensures Parse(lines[..i + 1]) == StepLine(Parse(lines[..i]), lines[i])
  {
    assert lines[..i + 1][..i] == lines[..i];
  }

  /** A line terminator at the end of the export, which leaves an empty
      last line after the split, changes neither customers nor warnings. */
  lemma TrailingTerminatorIgnored(content: string, p: Platform)
    ensures Parse(Lines(content + Eol(p), p)) == Parse(Lines(content, p))
  {
    var lines := Lines(content, p);
    EolUnbordered(p);
    JsString.SplitTerminated(content, Eol(p));
    assert (lines + [""])[..|lines|] == lines;
  }
}
