/** The loops of `extractCustomers`, which `CrmExportProvider` and
    `CrmExportFile` both contain word for word: the lines are filtered, then
    each line's fields are reduced into a fresh `CustomerInFile` object
    while the warnings are pushed onto one shared list. */
module CrmExportParser {

  import opened Wrappers
  import opened Customers
  import opened CrmExport
  import opened CrmExportProperties

  /** Why an export could not be read: the file's name and the error the
      reading raised. */
  datatype ReadError = CannotReadFile(fileIdentifier: string, cause: string)

  /** `readCustomersOrThrow`: `content` is what reading the file gave,
      its text or the error raised. A failed read is reported with the
      file's name; a text is split into lines at the platform's line
      terminator and parsed. */
  method ReadCustomers(fileIdentifier: string, content: Result<string, string>, p: Platform)
    returns (r: Result<ParseResult, ReadError>)
    ensures content.Failure? <==> r.Failure?
    ensures content.Failure? ==> r.error == CannotReadFile(fileIdentifier, content.error)
    ensures content.Success? ==> r.value == Parse(Lines(content.value, p))
  {
    match content
    case Failure(cause) =>
      r := Failure(CannotReadFile(fileIdentifier, cause));
    case Success(text) =>
      var customers, warnings := ExtractCustomers(Lines(text, p));
      r := Success(ParseResult(customers, warnings));
  }

  /** `extractCustomers(fileLines)`: the customers and warnings, exactly
      as the specification `Parse` gives them. */
  method ExtractCustomers(fileLines: seq<string>) returns (customers: seq<Customer>, warnings: seq<Warning>)
    ensures ParseResult(customers, warnings) == Parse(fileLines)
  {
    var lines := NonEmpty(fileLines);
    EmptyLinesIgnored(fileLines);
    customers, warnings := [], [];
    for i := 0 to |lines|
      invariant ParseResult(customers, warnings) == Parse(lines[..i])
    {
      ParseSnoc(lines, i);
      customers, warnings := AddLine(customers, warnings, lines[i]);
    }
    assert lines[..|lines|] == lines;
  }

  /** `fileLines.filter((line) => line.length > 0)`. */
  method NonEmpty(fileLines: seq<string>) returns (lines: seq<string>)
    ensures lines == NonEmptyLines(fileLines)
  {
    lines := [];
    for i := 0 to |fileLines|
      invariant lines == NonEmptyLines(fileLines[..i])
    {
      assert fileLines[..i + 1][..i] == fileLines[..i];
      if |fileLines[i]| > 0 {
        lines := lines + [fileLines[i]];
      }
    }
    assert fileLines[..|fileLines|] == fileLines;
  }

  /** The `forEach` callback for one non-empty line. */
  method AddLine(customers: seq<Customer>, warnings: seq<Warning>, line: string)
    returns (customers': seq<Customer>, warnings': seq<Warning>)
    requires |line| > 0
    ensures ParseResult(customers', warnings') == StepLine(ParseResult(customers, warnings), line)
  {
    var customer, pushed := ReduceLine(Fields(line));
    customers', warnings' := customers, warnings + pushed;
    if customer.id.None? || customer.longitude.None? || customer.latitude.None? {
      warnings' := warnings' + [Incomplete(customer.Value())];
    } else {
      var c := Customer(customer.id.value, Position(customer.latitude.value, customer.longitude.value));
      if HasId(customers', c.id) {
        warnings' := warnings' + [DuplicateId(c.id)];
      }
      customers' := customers' + [c];
    }
  }

  /** `fields.reduce(callback, emptyAccumulator)` on a fresh accumulator
      object; `pushed` is what the callbacks push onto the warnings, in
      order. */
  method ReduceLine(fields: seq<string>) returns (customer: CustomerInFile, pushed: seq<Warning>)
    ensures fresh(customer)
    ensures customer.Value() == ReduceFields(fields).0
    ensures pushed == ReduceFields(fields).1
  {
    customer := new CustomerInFile();
    pushed := [];
    for j := 0 to |fields|
      invariant customer.Value() == ReduceFields(fields[..j]).0
      invariant pushed == ReduceFields(fields[..j]).1
    {
      assert fields[..j + 1][..j] == fields[..j];
      var more := customer.ApplyField(fields[j]);
      pushed := pushed + more;
    }
    assert fields[..|fields|] == fields;
  }
}
