/** The CRM export parser shared by `CrmExportProvider.extractCustomers` and
    `CrmExportFile.extractCustomer`, whose bodies are identical.

    Each line of an export holds one customer as comma-separated `key: value`
    fields. A line is read field by field into an accumulator with three
    slots (id, latitude, longitude); every problem met on the way becomes a
    warning, and a line whose slots all end up filled becomes a customer.

    This module holds the specification of that algorithm as functions
    (`StepField`, `ReduceFields`, `StepLine`, `Parse`) and the accumulator
    as the mutable object the source uses (`CustomerInFile`). The loops
    that run the algorithm are in `CrmExportParser`, and what it
    guarantees is stated in `CrmExportProperties`. */
module CrmExport {

  import opened Wrappers
  import JsString
  import opened JsNumber
  import CustomerId
  import opened Customers

  /** The accumulator of one line, as a value: each slot is `undefined`
      (`None`) until a valid value is stored in it. */
  datatype Acc = Acc(id: Option<string>, latitude: Option<Num>, longitude: Option<Num>)

  const EmptyAcc := Acc(None, None, None)

  predicate Complete(acc: Acc) {
    acc.id.Some? && acc.latitude.Some? && acc.longitude.Some?
  }

  /** The number of slots that hold a value. */
  function Filled(acc: Acc): nat {
    (if acc.id.Some? then 1 else 0) + (if acc.latitude.Some? then 1 else 0)
    + (if acc.longitude.Some? then 1 else 0)
  }

  /** The warnings the parser pushes, with the values the source prints in
      them. A field value is `None` when the field had no colon. */
  datatype Warning =
    | MultipleIds(previousId: string, given: Option<string>)
    | InvalidId(given: Option<string>)
    | MultipleLatitudes(previousLatitude: Num, given: Option<string>)
    | LatitudeNaN(given: Option<string>)
    | MultipleLongitudes(previousLongitude: Num, given: Option<string>)
    | LongitudeNaN(given: Option<string>)
    | UnknownField(key: string, value: Option<string>)
    | Incomplete(customer: Acc)
    | DuplicateId(id: string)

  /** `{customers, warnings}`. */
  datatype ParseResult = ParseResult(customers: seq<Customer>, warnings: seq<Warning>)

  /** The platform's line terminator, `os.EOL`. */
  datatype Platform = Posix | Windows

  function Eol(p: Platform): (eol: string)
    ensures |eol| > 0
  {
    match p
    case Posix => "\n"
    case Windows => "\r\n"
  }

  /** Neither line terminator can overlap itself, so `split` finds every
      terminator in a text. */
  lemma EolUnbordered(p: Platform)
    ensures JsString.Unbordered(Eol(p))
  {
    if p == Windows {
      assert Eol(p)[..1] == "\r" && Eol(p)[1..] == "\n";
    }
  }

  /** `fileContent.split(EOL)`: no line holds the terminator, and joining
      the lines with it gives the content back. */
  function Lines(content: string, p: Platform): (lines: seq<string>)
    ensures |lines| >= 1 && JsString.Join(lines, Eol(p)) == content
    ensures forall line :: line in lines ==> !JsString.Contains(line, Eol(p))
  {
    JsString.SplitJoin(content, Eol(p));
    JsString.SplitPiecesAvoidSeparator(content, Eol(p));
    JsString.Split(content, Eol(p))
  }

  /** What `RegExp.prototype.test` and `parseFloat` see of a field value:
      JavaScript turns `undefined` into the string "undefined". */
  function ToJsString(v: Option<string>): string {
    match v
    case None => "undefined"
    case Some(s) => s
  }

  /** A field without a colon has the value `undefined`, and the text it
      becomes fails both the id check and `parseFloat`. */
  lemma UndefinedRejected()
    ensures !CustomerId.Test(ToJsString(None)) && ParseFloat(ToJsString(None)).None?
  {
    CustomerId.TooShort("undefined");
    assert JsString.TrimStart("undefined") == "undefined";
    assert "undefined"[..8] != "Infinity" by {
      assert "undefined"[..8][0] == 'u';
    }
  }

  // ---------------------------------------------------------------------
  // Splitting a line into fields and a field into key and value

  /** `pieces.map(trim).filter(p => p.length > 0)`: every piece kept is
      trimmed and non-empty. */
  function TrimmedNonEmpty(pieces: seq<string>): (fields: seq<string>)
    ensures |fields| <= |pieces|
    ensures forall f :: f in fields ==> f != [] && JsString.Trim(f) == f
  {
    if pieces == [] then []
    else
      var f := JsString.Trim(pieces[0]);
      var rest := TrimmedNonEmpty(pieces[1..]);
      JsString.TrimIdempotent(pieces[0]);
      if f == [] then rest else [f] + rest
  }

  /** Trimming and dropping pieces brings in no character. */
  lemma {:induction false} TrimmedAvoids(pieces: seq<string>, c: char)
    requires forall p :: p in pieces ==> c !in p
    ensures forall f :: f in TrimmedNonEmpty(pieces) ==> c !in f
  {
    if pieces != [] {
      assert pieces[0] in pieces;
      assert forall p :: p in pieces[1..] ==> p in pieces;
      TrimmedAvoids(pieces[1..], c);
      JsString.TrimKeepsOut(pieces[0], c);
    }
  }

  /** The fields of a line: split on `,`, trimmed, empty ones dropped. Each
      is non-empty, trimmed and free of commas. */
  function Fields(line: string): (fields: seq<string>)
    ensures forall f :: f in fields ==> f != [] && JsString.Trim(f) == f && ',' !in f
  {
    JsString.SplitPiecesAvoidChar(line, ',');
    TrimmedAvoids(JsString.Split(line, ","), ',');
    TrimmedNonEmpty(JsString.Split(line, ","))
  }

  /** `const [key, value] = field.split(':').map(trim)`: the key is the
      first piece and the value the second; later pieces are dropped, and a
      field without a colon has no value. Key and value are trimmed and
      hold no colon. */
  function KeyValue(field: string): (kv: (string, Option<string>))
    ensures ':' !in kv.0 && JsString.Trim(kv.0) == kv.0
    ensures kv.1.Some? ==> ':' !in kv.1.value && JsString.Trim(kv.1.value) == kv.1.value
    ensures kv.1.None? <==> ':' !in field
  {
    var pieces := JsString.Split(field, ":");
    JsString.SplitPiecesAvoidChar(field, ':');
    JsString.SplitCount(field, ':');
    assert pieces[0] in pieces;
    JsString.TrimKeepsOut(pieces[0], ':');
    JsString.TrimIdempotent(pieces[0]);
    if |pieces| > 1 then
      assert pieces[1] in pieces;
      JsString.TrimKeepsOut(pieces[1], ':');
      JsString.TrimIdempotent(pieces[1]);
      (JsString.Trim(pieces[0]), Some(JsString.Trim(pieces[1])))
    else (JsString.Trim(pieces[0]), None)
  }

  function FieldKey(field: string): string {
    KeyValue(field).0
  }

  function FieldValue(field: string): Option<string> {
    KeyValue(field).1
  }

  // ---------------------------------------------------------------------
  // The algorithm, as functions

  /** One call of the `reduce` callback: the new accumulator and the
      warnings pushed, in order. A slot that is already set draws a
      "Multiple" warning before the new value is checked; a valid value
      overwrites the slot, an invalid one leaves it as it was. */
  function StepField(acc: Acc, field: string): (Acc, seq<Warning>) {
    var key, value := FieldKey(field), FieldValue(field);
    var text := ToJsString(value);
    if key == "id" then
      var repeated := if acc.id.Some? then [MultipleIds(acc.id.value, value)] else [];
      if CustomerId.Test(text) then (acc.(id := Some(text)), repeated)
      else (acc, repeated + [InvalidId(value)])
    else if key == "lat" then
      var repeated := if acc.latitude.Some? then [MultipleLatitudes(acc.latitude.value, value)] else [];
      match ParseFloat(text)
      case None => (acc, repeated + [LatitudeNaN(value)])
      case Some(x) => (acc.(latitude := Some(x)), repeated)
    else if key == "long" then
      var repeated := if acc.longitude.Some? then [MultipleLongitudes(acc.longitude.value, value)] else [];
      match ParseFloat(text)
      case None => (acc, repeated + [LongitudeNaN(value)])
      case Some(x) => (acc.(longitude := Some(x)), repeated)
    else (acc, [UnknownField(key, value)])
  }

  /** No slot is ever emptied, a field fills at most one slot, a field that
      draws no warning fills a slot that was empty, and no field draws more
      than two warnings. */
  lemma StepFieldFills(acc: Acc, field: string)
    ensures var step := StepField(acc, field);
      Filled(acc) <= Filled(step.0) <= Filled(acc) + 1 && Filled(acc) + 1 <= Filled(step.0) + |step.1|
      && |step.1| <= 2
  {
  }

  /** `fields.reduce(callback, emptyAccumulator)`, with the warnings the
      callbacks pushed. */
  function ReduceFields(fields: seq<string>): (Acc, seq<Warning>) {
    if fields == [] then (EmptyAcc, [])
    else
      var before := ReduceFields(fields[..|fields| - 1]);
      var step := StepField(before.0, fields[|fields| - 1]);
      (step.0, before.1 + step.1)
  }

  /** Every field fills a slot or draws a warning, and none draws more
      than two, so a complete accumulator needs three fields. */
  lemma {:induction false} ReduceFieldsFills(fields: seq<string>)
    ensures var reduced := ReduceFields(fields);
      Filled(reduced.0) <= |fields| <= Filled(reduced.0) + |reduced.1| && |reduced.1| <= 2 * |fields|
  {
    if fields != [] {
      ReduceFieldsFills(fields[..|fields| - 1]);
      StepFieldFills(ReduceFields(fields[..|fields| - 1]).0, fields[|fields| - 1]);
    }
  }

  /** `customers.some(other => other.id === id)`. */
  predicate HasId(customers: seq<Customer>, id: string)
    ensures HasId(customers, id) <==> exists i :: 0 <= i < |customers| && customers[i].id == id
  {
    customers != [] && (customers[0].id == id || HasId(customers[1..], id))
  }

  /** One call of the `forEach` callback: empty lines are skipped; an
      incomplete accumulator adds a warning; a complete one adds a
      customer, after a warning when an earlier customer has its id. A
      line only appends: at most one customer, and some warning or a
      customer for every non-empty line. */
  function StepLine(r: ParseResult, line: string): (next: ParseResult)
    ensures r.customers <= next.customers && r.warnings <= next.warnings
    ensures |next.customers| <= |r.customers| + 1
    ensures |line| == 0 <==> next == r
  {
    if |line| == 0 then r
    else
      var reduced := ReduceFields(Fields(line));
      var acc, ws := reduced.0, reduced.1;
      if !Complete(acc) then ParseResult(r.customers, r.warnings + ws + [Incomplete(acc)])
      else
        var c := Customer(acc.id.value, Position(acc.latitude.value, acc.longitude.value));
        var duplicate := if HasId(r.customers, c.id) then [DuplicateId(c.id)] else [];
        ParseResult(r.customers + [c], r.warnings + ws + duplicate)
  }

  /** `extractCustomers(fileLines)`: no more customers than lines. */
  function Parse(lines: seq<string>): (r: ParseResult)
    ensures |r.customers| <= |lines|
  {
    if lines == [] then ParseResult([], [])
    else StepLine(Parse(lines[..|lines| - 1]), lines[|lines| - 1])
  }

  // ---------------------------------------------------------------------
  // The accumulator object

  /** The `CustomerInFile` object a line is reduced into; the callback
      updates its slots in place. */
  class CustomerInFile {
    var id: Option<string>
    var latitude: Option<Num>
    var longitude: Option<Num>

    function Value(): Acc
      reads this
    {
      Acc(id, latitude, longitude)
    }

    constructor ()
      ensures Value() == EmptyAcc
    {
      id, latitude, longitude := None, None, None;
    }

    /** The body of the `reduce` callback for one field; returns what it
        pushes onto the warnings. */
    method ApplyField(field: string) returns (pushed: seq<Warning>)
      modifies this
      ensures Value() == StepField(old(Value()), field).0
      ensures pushed == StepField(old(Value()), field).1
    {
      var key, value := FieldKey(field), FieldValue(field);
      var text := ToJsString(value);
      pushed := [];
      if key == "id" {
        if id.Some? {
          pushed := [MultipleIds(id.value, value)];
        }
        if !CustomerId.Test(text) {
          pushed := pushed + [InvalidId(value)];
        } else {
          id := Some(text);
        }
      } else if key == "lat" {
        if latitude.Some? {
          pushed := [MultipleLatitudes(latitude.value, value)];
        }
        var parsed := ParseFloat(text);
        if parsed.None? {
          pushed := pushed + [LatitudeNaN(value)];
        } else {
          latitude := parsed;
        }
      } else if key == "long" {
        if longitude.Some? {
          pushed := [MultipleLongitudes(longitude.value, value)];
        }
        var parsed := ParseFloat(text);
        if parsed.None? {
          pushed := pushed + [LongitudeNaN(value)];
        } else {
          longitude := parsed;
        }
      } else {
        pushed := [UnknownField(key, value)];
      }
    }
  }
}
