/**
 * `parse_response_to_dataframe`: the product extractor's free text becomes a
 * table with one seven-column record per line. The pandas DataFrame is
 * modelled as a sequence of records.
 */
module ProductParser {
  import opened Wrappers
  import opened Text

  /** The columns of the table, one constructor per entry of the `columns` list. */
  datatype Column = ProductName | Category | Brand | Mrp | Manufacturer | ExpiryDate | Quantity

  /** The `columns` list: the table's column order, which is also the order in which labels are tried. */
  const Columns: seq<Column> := [ProductName, Category, Brand, Mrp, Manufacturer, ExpiryDate, Quantity]

  /** The header of a column, which is also the label searched for in each part. */
  function Label(c: Column): string {
    match c
    case ProductName => "Product Name"
    case Category => "Category"
    case Brand => "Brand"
    case Mrp => "MRP"
    case Manufacturer => "Manufacturer"
    case ExpiryDate => "Expiry Date"
    case Quantity => "Quantity"
  }

  /** Position of a column in `Columns`. */
  function Rank(c: Column): (k: nat)
    ensures k < |Columns| && Columns[k] == c
  {
    match c
    case ProductName => 0
    case Category => 1
    case Brand => 2
    case Mrp => 3
    case Manufacturer => 4
    case ExpiryDate => 5
    case Quantity => 6
  }

  /** The sentinel for a field that no part of the line supplied. */
  const NA: string := "NA"

  /** One row of the table: the `product_details` dictionary, keyed by the seven columns. */
  datatype Record = Record(productName: string, category: string, brand: string, mrp: string,
                           manufacturer: string, expiryDate: string, quantity: string)
  {
    function Get(c: Column): string {
      match c
      case ProductName => productName
      case Category => category
      case Brand => brand
      case Mrp => mrp
      case Manufacturer => manufacturer
      case ExpiryDate => expiryDate
      case Quantity => quantity
    }

    /** `product_details[c] = v`: the one field changes, the others keep their values. */
    function With(c: Column, v: string): (r: Record)
      ensures r.Get(c) == v
      ensures forall d :: d != c ==> r.Get(d) == Get(d)
    {
      match c
      case ProductName => this.(productName := v)
      case Category => this.(category := v)
      case Brand => this.(brand := v)
      case Mrp => this.(mrp := v)
      case Manufacturer => this.(manufacturer := v)
      case ExpiryDate => this.(expiryDate := v)
      case Quantity => this.(quantity := v)
    }
  }

  /** `{col: "NA" for col in columns}`: the record every line starts from. */
  const Blank: Record := Record(NA, NA, NA, NA, NA, NA, NA)

  lemma RecordsEqual(r1: Record, r2: Record)
    requires forall c :: r1.Get(c) == r2.Get(c)
    ensures r1 == r2
  {
    assert r1.Get(ProductName) == r2.Get(ProductName) && r1.Get(Category) == r2.Get(Category);
    assert r1.Get(Brand) == r2.Get(Brand) && r1.Get(Mrp) == r2.Get(Mrp);
    assert r1.Get(Manufacturer) == r2.Get(Manufacturer) && r1.Get(ExpiryDate) == r2.Get(ExpiryDate);
    assert r1.Get(Quantity) == r2.Get(Quantity);
  }

  /** The IndexError raised by `part.split(": ")[1]` when a labelled part has no `": "`. */
  datatype ParseError = IndexError

  /**
   * The `if`/`elif` chain: the column whose label is the first, in column
   * order, to occur as a substring of the part; None when no label occurs.
   */
  function MatchedColumn(part: string): (r: Option<Column>)
    ensures r.Some? ==> Contains(part, Label(r.value))
    ensures r.Some? ==> forall d :: Rank(d) < Rank(r.value) ==> !Contains(part, Label(d))
    ensures r.None? <==> forall d :: !Contains(part, Label(d))
  {
    if Contains(part, Label(ProductName)) then Some(ProductName)
    else if Contains(part, Label(Category)) then Some(Category)
    else if Contains(part, Label(Brand)) then Some(Brand)
    else if Contains(part, Label(Mrp)) then Some(Mrp)
    else if Contains(part, Label(Manufacturer)) then Some(Manufacturer)
    else if Contains(part, Label(ExpiryDate)) then Some(ExpiryDate)
    else if Contains(part, Label(Quantity)) then Some(Quantity)
    else None
  }

  /**
   * `part.split(": ")[1]`: the text between the first and the second `": "`
   * of the part, or None where Python raises IndexError (no `": "` at all).
   */
  function PartValue(part: string): (v: Option<string>)
    ensures v.Some? <==> Contains(part, ": ")
    ensures v.Some? ==> !Contains(v.value, ": ")
  {
    var pieces := Split(part, ": ");
    SplitSingleton(part, ": ");
    if |pieces| < 2 then None else Some(pieces[1])
  }

  /** A part that names a column but has no `": "`, on which the source raises IndexError. */
  predicate Malformed(part: string) {
    MatchedColumn(part).Some? && !Contains(part, ": ")
  }

  /** One iteration of the inner loop over the parts of a line. */
  function ParsePart(details: Record, part: string): (r: Result<Record, ParseError>)
    ensures r.Failure? <==> Malformed(part)
    ensures r.Success? && MatchedColumn(part).None? ==> r.value == details
    ensures r.Success? && MatchedColumn(part).Some? ==>
              Some(r.value.Get(MatchedColumn(part).value)) == PartValue(part) &&
              forall d :: d != MatchedColumn(part).value ==> r.value.Get(d) == details.Get(d)
  {
    match MatchedColumn(part)
    case None => Success(details)
    case Some(c) =>
      match PartValue(part)
      case None => Failure(IndexError)
      case Some(v) => Success(details.With(c, v))
  }

  /** The inner loop: the parts of one line applied to the record in order. */
  function ParseParts(details: Record, parts: seq<string>): Result<Record, ParseError>
    decreases |parts|
  {
    if parts == [] then Success(details)
    else match ParsePart(details, parts[0])
      case Failure(e) => Failure(e)
      case Success(next) => ParseParts(next, parts[1..])
  }

  /** The record for one line: its `", "`-separated parts applied to the all-"NA" record. */
  function ParseSection(section: string): Result<Record, ParseError> {
    ParseParts(Blank, Split(section, ", "))
  }

  /** The outer loop: one record per line, in order, unless some line raises. */
  function ParseSections(sections: seq<string>): Result<seq<Record>, ParseError>
    decreases |sections|
  {
    if sections == [] then Success([])
    else match ParseSection(sections[0])
      case Failure(e) => Failure(e)
      case Success(r) => Prefixed([r], ParseSections(sections[1..]))
  }

  /** `rows` put in front of a successful table; a failure stays a failure. */
  function Prefixed(rows: seq<Record>, rest: Result<seq<Record>, ParseError>): Result<seq<Record>, ParseError> {
    match rest
    case Failure(e) => Failure(e)
    case Success(more) => Success(rows + more)
  }

  lemma PrefixedTwice(rows: seq<Record>, more: seq<Record>, rest: Result<seq<Record>, ParseError>)
    ensures Prefixed(rows, Prefixed(more, rest)) == Prefixed(rows + more, rest)
  {
    match rest
    case Failure(_) =>
    case Success(tail) => assert rows + (more + tail) == rows + more + tail;
  }

  /** The table `parse_response_to_dataframe` builds from the response text. */
  function Parse(responseText: string): Result<seq<Record>, ParseError> {
    ParseSections(Split(responseText, "\n"))
  }

  /** One step of the inner loop: the part at `p` is applied, then the rest. */
  lemma PartStep(details: Record, parts: seq<string>, p: int)
    requires 0 <= p < |parts|
    ensures ParseParts(details, parts[p..]) ==
            match ParsePart(details, parts[p])
            case Failure(e) => Failure(e)
            case Success(next) => ParseParts(next, parts[p + 1..])
  {
    assert parts[p..][0] == parts[p] && parts[p..][1..] == parts[p + 1..];
  }

  /** One step of the outer loop: the line at `s` is parsed, then the lines after it. */
  lemma SectionStep(sections: seq<string>, s: int)
    requires 0 <= s < |sections|
    ensures ParseSections(sections[s..]) ==
            match ParseSection(sections[s])
            case Failure(e) => Failure(e)
            case Success(r) => Prefixed([r], ParseSections(sections[s + 1..]))
  {
    assert sections[s..][0] == sections[s] && sections[s..][1..] == sections[s + 1..];
  }

  /**
   * `parse_response_to_dataframe` as the source runs it: an outer loop that
   * appends one record per line and an inner loop that fills the record in place.
   */
  method ParseResponse(responseText: string) returns (table: Result<seq<Record>, ParseError>)
    ensures table == Parse(responseText)
  {
    var sections := Split(responseText, "\n");
    var products: seq<Record> := [];
    assert sections[0..] == sections;
    assert Prefixed([], ParseSections(sections)) == ParseSections(sections) by {
      match ParseSections(sections)
      case Failure(_) =>
      case Success(rs) => assert [] + rs == rs;
    }
    for s := 0 to |sections|
      invariant Parse(responseText) == Prefixed(products, ParseSections(sections[s..]))
    {
      var details := Blank;
      var parts := Split(sections[s], ", ");
      assert parts[0..] == parts;
      for p := 0 to |parts|
        invariant ParseSection(sections[s]) == ParseParts(details, parts[p..])
      {
        var part := parts[p];
        PartStep(details, parts, p);
        var column := MatchedColumn(part);
        if column.Some? {
          var pieces := Split(part, ": ");
          if |pieces| < 2 {
            SectionStep(sections, s);
            return Failure(IndexError);
          }
          details := details.With(column.value, pieces[1]);
        }
      }
      SectionStep(sections, s);
      PrefixedTwice(products, [details], ParseSections(sections[s + 1..]));
      products := products + [details];
    }
    assert products + [] == products;
    return Success(products);
  }

  /* ---------------- One record per line, in order ---------------- */

  lemma {:induction false} SectionsParsedInOrder(sections: seq<string>)
    ensures ParseSections(sections).Success? <==>
              forall i :: 0 <= i < |sections| ==> ParseSection(sections[i]).Success?
    ensures ParseSections(sections).Success? ==>
              |ParseSections(sections).value| == |sections| &&
              forall i :: 0 <= i < |sections| ==> ParseSections(sections).value[i] == ParseSection(sections[i]).value
    decreases |sections|
  {
    if sections != [] {
      var rest := sections[1..];
      SectionsParsedInOrder(rest);
      assert forall i :: 1 <= i < |sections| ==> rest[i - 1] == sections[i];
      match ParseSection(sections[0])
      case Failure(_) =>
      case Success(r) =>
        match ParseSections(rest)
        case Failure(_) =>
          var i :| 0 <= i < |rest| && !ParseSection(rest[i]).Success?;
          assert !ParseSection(sections[i + 1]).Success?;
        case Success(rows) =>
          assert ParseSections(sections) == Success([r] + rows);
    }
  }

  /**
   * The table has one record per `"\n"`-separated line, in input order:
   * one more record than the text has line feeds, unless some line raises.
   */
  lemma OneRecordPerLine(responseText: string)
    ensures var lines := Split(responseText, "\n");
            Parse(responseText).Success? <==> forall i :: 0 <= i < |lines| ==> ParseSection(lines[i]).Success?
    ensures var lines := Split(responseText, "\n");
            Parse(responseText).Success? ==>
              |Parse(responseText).value| == |lines| == multiset(responseText)['\n'] + 1 &&
              forall i :: 0 <= i < |lines| ==> Parse(responseText).value[i] == ParseSection(lines[i]).value
  {
    SectionsParsedInOrder(Split(responseText, "\n"));
    SplitCharCount(responseText, '\n');
  }

  /* ---------------- The IndexError case ---------------- */

  lemma {:induction false} PartsFailIff(details: Record, parts: seq<string>)
    ensures ParseParts(details, parts).Failure? <==> exists k :: 0 <= k < |parts| && Malformed(parts[k])
    decreases |parts|
  {
    if parts != [] {
      var first := ParsePart(details, parts[0]);
      if first.Success? {
        var rest := parts[1..];
        PartsFailIff(first.value, rest);
        forall k | 1 <= k < |parts| ensures Malformed(parts[k]) == Malformed(rest[k - 1]) {
        }
        assert !Malformed(parts[0]);
      }
    }
  }

  /** Some part of the line names a column but has no `": "`. */
  ghost predicate LineMalformed(section: string) {
    var parts := Split(section, ", ");
    exists k :: 0 <= k < |parts| && Malformed(parts[k])
  }

  /** Parsing raises IndexError exactly when some line has a part that names a column but lacks `": "`. */
  lemma ParseFailsIff(responseText: string)
    ensures var lines := Split(responseText, "\n");
            Parse(responseText).Failure? <==> exists i :: 0 <= i < |lines| && LineMalformed(lines[i])
  {
    var lines := Split(responseText, "\n");
    SectionsParsedInOrder(lines);
    forall i | 0 <= i < |lines| ensures ParseSection(lines[i]).Failure? <==> LineMalformed(lines[i]) {
      PartsFailIff(Blank, Split(lines[i], ", "));
    }
  }

  /* ---------------- Which part a field comes from ---------------- */

  /** The column each part of a line is matched to, in order. */
  function Tags(parts: seq<string>): (tags: seq<Option<Column>>)
    ensures |tags| == |parts|
    ensures forall k :: 0 <= k < |parts| ==> tags[k] == MatchedColumn(parts[k])
  {
    seq(|parts|, k requires 0 <= k < |parts| => MatchedColumn(parts[k]))
  }

  /** Index of the last entry tagged `c`, scanning from the end. */
  function LastTagged(tags: seq<Option<Column>>, c: Column): (j: Option<nat>)
    ensures j.Some? ==> j.value < |tags| && tags[j.value] == Some(c)
    ensures j.Some? ==> forall k :: j.value < k < |tags| ==> tags[k] != Some(c)
    ensures j.None? ==> forall k :: 0 <= k < |tags| ==> tags[k] != Some(c)
    decreases |tags|
  {
    if tags == [] then None
    else if tags[|tags| - 1] == Some(c) then Some(|tags| - 1)
    else LastTagged(tags[..|tags| - 1], c)
  }

  /** Scanning from the end agrees with looking at the tail first and the head last. */
  lemma {:induction false} LastTaggedTail(tags: seq<Option<Column>>, c: Column)
    requires tags != []
    ensures LastTagged(tags, c) ==
              match LastTagged(tags[1..], c)
              case Some(j) => Some(j + 1)
              case None => if tags[0] == Some(c) then Some(0) else None
    decreases |tags|
  {
    if |tags| == 1 {
      assert tags[1..] == [];
    } else {
      var rest := tags[1..];
      assert rest[|rest| - 1] == tags[|tags| - 1];
      if tags[|tags| - 1] != Some(c) {
        var init := tags[..|tags| - 1];
        LastTaggedTail(init, c);
        assert rest[..|rest| - 1] == init[1..];
        assert init[0] == tags[0];
      }
    }
  }

  /**
   * After the inner loop, a field holds the value of the LAST part whose
   * matched column it is, or its starting value when no part matches it.
   */
  lemma {:induction false} FieldFromLastLabelled(details: Record, parts: seq<string>, c: Column)
    requires ParseParts(details, parts).Success?
    ensures Some(ParseParts(details, parts).value.Get(c)) ==
              match LastTagged(Tags(parts), c)
              case None => Some(details.Get(c))
              case Some(j) => PartValue(parts[j])
    decreases |parts|
  {
    if parts != [] {
      var next := ParsePart(details, parts[0]).value;
      var rest := parts[1..];
      assert ParseParts(details, parts) == ParseParts(next, rest);
      FieldFromLastLabelled(next, rest, c);
      var tags := Tags(parts);
      assert tags[1..] == Tags(rest);
      LastTaggedTail(tags, c);
      var later := LastTagged(Tags(rest), c);
      if later.Some? {
        assert rest[later.value] == parts[later.value + 1];
      } else if tags[0] == Some(c) {
        assert Some(next.Get(c)) == PartValue(parts[0]);
      } else {
        assert next.Get(c) == details.Get(c);
      }
    }
  }

  /** In a parsed line, each column is "NA" unless a part matched it, and then the last such part's value. */
  lemma FieldOfLine(section: string, c: Column)
    requires ParseSection(section).Success?
    ensures var parts := Split(section, ", ");
            Some(ParseSection(section).value.Get(c)) ==
              match LastTagged(Tags(parts), c)
              case None => Some(NA)
              case Some(j) => PartValue(parts[j])
  {
    FieldFromLastLabelled(Blank, Split(section, ", "), c);
  }

  /** A line none of whose parts names a column, the empty line included, gives the all-"NA" record. */
  lemma UnlabelledLineIsBlank(section: string)
    requires forall k :: 0 <= k < |Split(section, ", ")| ==> MatchedColumn(Split(section, ", ")[k]).None?
    ensures ParseSection(section) == Success(Blank)
  {
    var parts := Split(section, ", ");
    PartsFailIff(Blank, parts);
    forall c ensures ParseSection(section).value.Get(c) == Blank.Get(c) {
      FieldOfLine(section, c);
    }
    RecordsEqual(ParseSection(section).value, Blank);
  }

  lemma LinesAroundBlank(line1: string, line2: string)
    requires '\n' !in line1 && '\n' !in line2
    ensures Split(line1 + "\n\n" + line2, "\n") == [line1, "", line2]
  {
    ContainsChar(line1, '\n');
    ContainsChar(line2, '\n');
    ContainsChar("", '\n');
    SplitJoin([line1, "", line2], "\n");
    assert Join([line1, "", line2], "\n") == line1 + "\n\n" + line2;
  }

  /** A blank line between two product lines yields an all-"NA" record between theirs. */
  lemma BlankLineBetween(line1: string, line2: string)
    requires '\n' !in line1 && '\n' !in line2
    requires ParseSection(line1).Success? && ParseSection(line2).Success?
    ensures Parse(line1 + "\n\n" + line2) ==
              Success([ParseSection(line1).value, Blank, ParseSection(line2).value])
  {
    var lines := [line1, "", line2];
    LinesAroundBlank(line1, line2);
    assert Split("", ", ") == [""];
    UnlabelledLineIsBlank("");
    SectionsParsedInOrder(lines);
    var rows := ParseSections(lines).value;
    assert rows[0] == ParseSection(line1).value;
    assert rows[1] == Blank;
    assert rows[2] == ParseSection(line2).value;
    assert rows == [ParseSection(line1).value, Blank, ParseSection(line2).value];
    assert Parse(line1 + "\n\n" + line2) == ParseSections(lines);
  }

  /* ---------------- The value of a part ---------------- */

  /** The stored value is the piece between the first and the second `": "` (or the end of the part). */
  lemma ValueBetweenSeparators(head: string, v: string, tail: string)
    requires !Contains(head, ": ") && !Contains(v, ": ")
    ensures PartValue(head + ": " + v) == Some(v)
    ensures PartValue(head + ": " + v + ": " + tail) == Some(v)
  {
    ValueToEnd(head, v);
    ValueToSecondSeparator(head, v, tail);
  }

  lemma ValueToEnd(head: string, v: string)
    requires !Contains(head, ": ") && !Contains(v, ": ")
    ensures PartValue(head + ": " + v) == Some(v)
  {
    PairUnbordered(':', ' ');
    SplitAfterFreePrefix(head, ": ", v);
    SplitFree(v, ": ");
    SplitSingleton(head + ": " + v, ": ");
  }

  lemma ValueToSecondSeparator(head: string, v: string, tail: string)
    requires !Contains(head, ": ") && !Contains(v, ": ")
    ensures PartValue(head + ": " + v + ": " + tail) == Some(v)
  {
    PairUnbordered(':', ' ');
    SplitAfterFreePrefix(v, ": ", tail);
    assert head + ": " + v + ": " + tail == head + ": " + (v + ": " + tail);
    SplitAfterFreePrefix(head, ": ", v + ": " + tail);
    SplitSingleton(head + ": " + v + ": " + tail, ": ");
  }

  /* ---------------- The prompted line format ---------------- */

  lemma MisroutedColumn(part: string)
    requires part == "Brand: Category King"
    ensures MatchedColumn(part) == Some(Category)
  {
    MissingChar(part, Label(ProductName), 0);
    assert part[7..15] == Label(Category);
    assert OccursAt(part, Label(Category), 7);
  }

  lemma MisroutedValue(part: string)
    requires part == "Brand: Category King"
    ensures PartValue(part) == Some("Category King")
  {
    var head, v := part[..5], part[7..];
    MissingChar(head, ": ", 0);
    MissingChar(v, ": ", 0);
    assert part == head + ": " + v;
    ValueBetweenSeparators(head, v, "");
  }

  /** A label inside a value wins when it comes earlier in column order: `Brand: Category King` fills Category. */
  lemma LabelInValueMisroutes(part: string)
    requires part == "Brand: Category King"
    ensures ParsePart(Blank, part) == Success(Blank.With(Category, "Category King"))
  {
    MisroutedColumn(part);
    MisroutedValue(part);
  }

  /** The `Label: value` parts of the line format the extractor is asked for, in column order. */
  function Fields(r: Record): (fields: seq<string>)
    ensures |fields| == |Columns|
    ensures forall k :: 0 <= k < |Columns| ==> fields[k] == Label(Columns[k]) + ": " + r.Get(Columns[k])
  {
    seq(|Columns|, k requires 0 <= k < |Columns| => Label(Columns[k]) + ": " + r.Get(Columns[k]))
  }

  /** `Product Name: X, Category: Y, Brand: Z, MRP: M, Manufacturer: F, Expiry Date: E, Quantity: Q`. */
  function FormatLine(r: Record): string {
    Join(Fields(r), ", ")
  }

  /** Several records in the prompted format, one line each. */
  function FormatTable(rows: seq<Record>): string {
    Join(seq(|rows|, i requires 0 <= i < |rows| => FormatLine(rows[i])), "\n")
  }

  /** A value the naive matching reads back unchanged: no `,`, `:` or line feed, and no column label inside. */
  ghost predicate SafeValue(v: string) {
    ',' !in v && ':' !in v && '\n' !in v && forall c :: !Contains(v, Label(c))
  }

  /** Letters and spaces only. */
  predicate Wordy(s: string) {
    forall k :: 0 <= k < |s| ==> 'A' <= s[k] <= 'Z' || 'a' <= s[k] <= 'z' || s[k] == ' '
  }

  /** Text of letters and spaces holds no separator character. */
  lemma WordyHasNoSeparator(s: string)
    requires Wordy(s)
    ensures ',' !in s && ':' !in s && '\n' !in s
  {
  }

  lemma LabelChars(c: Column)
    ensures ',' !in Label(c) && ':' !in Label(c) && '\n' !in Label(c)
    ensures Label(c) != "" && Label(c)[0] != ' '
  {
    assert Wordy(Label(c)) by {
      match c
      case ProductName =>
      case Category =>
      case Brand =>
      case Mrp =>
      case Manufacturer =>
      case ExpiryDate =>
      case Quantity =>
    }
    WordyHasNoSeparator(Label(c));
  }

  lemma ColumnsDistinct()
    ensures forall k :: 0 <= k < |Columns| ==> Rank(Columns[k]) == k
  {
  }

  /*
   * Each label has a letter that no label after it contains: N in Product Name, C in Category,
   * B in Brand, R in MRP, M in Manufacturer, E in Expiry Date. One lemma per letter keeps
   * each proof small.
   */
  lemma KeyAbsentAfterProductName()
    ensures 'N' !in "Category" && 'N' !in "Brand" && 'N' !in "MRP" && 'N' !in "Manufacturer" && 'N' !in "Expiry Date" && 'N' !in "Quantity"
  {
  }

  lemma KeyAbsentAfterCategory()
    ensures 'C' !in "Brand" && 'C' !in "MRP" && 'C' !in "Manufacturer" && 'C' !in "Expiry Date" && 'C' !in "Quantity"
  {
  }

  lemma KeyAbsentAfterBrand()
    ensures 'B' !in "MRP" && 'B' !in "Manufacturer" && 'B' !in "Expiry Date" && 'B' !in "Quantity"
  {
  }

  lemma KeyAbsentAfterMrp()
    ensures 'R' !in "Manufacturer" && 'R' !in "Expiry Date" && 'R' !in "Quantity"
  {
  }

  lemma KeyAbsentAfterManufacturer()
    ensures 'M' !in "Expiry Date" && 'M' !in "Quantity"
  {
  }

  lemma KeyAbsentAfterExpiryDate()
    ensures 'E' !in "Quantity"
  {
  }

  /** No label, with its `": "`, contains a label that comes before it in column order. */
  lemma EarlierLabelAbsent(c: Column, d: Column)
    requires Rank(d) < Rank(c)
    ensures !Contains(Label(c) + ": ", Label(d))
  {
    var key := if d == ProductName then 8 else if d == Mrp then 1 else 0;
    match d {
      case ProductName => KeyAbsentAfterProductName();
      case Category => KeyAbsentAfterCategory();
      case Brand => KeyAbsentAfterBrand();
      case Mrp => KeyAbsentAfterMrp();
      case Manufacturer => KeyAbsentAfterManufacturer();
      case ExpiryDate => KeyAbsentAfterExpiryDate();
      case Quantity =>
    }
    MissingChar(Label(c) + ": ", Label(d), key);
  }

  /** A label cannot straddle the `": "` that ends `a` when it contains no colon and does not start with a space. */
  lemma NoLabelAcrossColon(a: string, v: string, t: string)
    requires |a| >= 2 && a[|a| - 2] == ':' && a[|a| - 1] == ' '
    requires t != "" && t[0] != ' ' && ':' !in t
    requires !Contains(a, t) && !Contains(v, t)
    ensures !Contains(a + v, t)
  {
    var s := a + v;
    forall i | 0 <= i && i + |t| <= |a| ensures !OccursAt(s, t, i) {
      assert s[i..i + |t|] == a[i..i + |t|];
      assert !OccursAt(a, t, i);
    }
    forall i | |a| <= i ensures !OccursAt(s, t, i) {
      if i + |t| <= |s| {
        assert s[i..i + |t|] == v[i - |a|..i - |a| + |t|];
      }
      assert !OccursAt(v, t, i - |a|);
    }
    forall i | 0 <= i < |a| < i + |t| ensures !OccursAt(s, t, i) {
      if i + |t| <= |s| {
        if i == |a| - 1 {
          assert s[i..i + |t|][0] == ' ';
        } else {
          assert s[i..i + |t|][|a| - 2 - i] == ':';
        }
      }
    }
  }

  /** A `Label: value` part with a safe value is stored under its own column. */
  lemma FieldMatchesOwnColumn(c: Column, v: string)
    requires SafeValue(v)
    ensures MatchedColumn(Label(c) + ": " + v) == Some(c)
  {
    var part := Label(c) + ": " + v;
    assert OccursAt(part, Label(c), 0);
    forall d | Rank(d) < Rank(c) ensures !Contains(part, Label(d)) {
      EarlierLabelAbsent(c, d);
      LabelChars(d);
      NoLabelAcrossColon(Label(c) + ": ", v, Label(d));
    }
    var m := MatchedColumn(part);
    assert m.Some?;
    assert Rank(m.value) == Rank(c);
  }

  /** A `Label: value` part with a safe value stores exactly that value. */
  lemma FieldValueReadsBack(c: Column, v: string)
    requires SafeValue(v)
    ensures PartValue(Label(c) + ": " + v) == Some(v)
    ensures ',' !in Label(c) + ": " + v && '\n' !in Label(c) + ": " + v
  {
    LabelChars(c);
    MissingChar(Label(c), ": ", 0);
    MissingChar(v, ": ", 0);
    ValueBetweenSeparators(Label(c), v, "");
    assert Label(c) + ": " + v + "" == Label(c) + ": " + v;
  }

  /** The seven parts of a formatted line carry the record's values under their own columns. */
  lemma LineParsesBack(r: Record)
    requires forall c :: SafeValue(r.Get(c))
    ensures '\n' !in FormatLine(r)
    ensures ParseSection(FormatLine(r)) == Success(r)
  {
    var fields := Fields(r);
    forall k | 0 <= k < |fields|
      ensures !Contains(fields[k], ", ") && '\n' !in fields[k]
      ensures Tags(fields)[k] == Some(Columns[k]) && PartValue(fields[k]) == Some(r.Get(Columns[k]))
    {
      FieldMatchesOwnColumn(Columns[k], r.Get(Columns[k]));
      FieldValueReadsBack(Columns[k], r.Get(Columns[k]));
      MissingChar(fields[k], ", ", 0);
    }
    JoinAvoids(fields, ", ", '\n');
    PairUnbordered(',', ' ');
    SplitJoin(fields, ", ");
    PartsFailIff(Blank, fields);
    ColumnsDistinct();
    var parsed := ParseSection(FormatLine(r)).value;
    forall c ensures parsed.Get(c) == r.Get(c) {
      FieldOfLine(FormatLine(r), c);
      var x := LastTagged(Tags(fields), c);
      assert Tags(fields)[Rank(c)] == Some(c);
      assert x.Some?;
      assert x.value == Rank(c);
    }
    RecordsEqual(parsed, r);
  }

  /** A line in the prompted format parses to exactly one record holding its seven values in column order. */
  lemma LineRoundTrip(r: Record)
    requires forall c :: SafeValue(r.Get(c))
    ensures Parse(FormatLine(r)) == Success([r])
  {
    var line := FormatLine(r);
    LineParsesBack(r);
    ContainsChar(line, '\n');
    SplitFree(line, "\n");
    assert Parse(line) == ParseSections([line]);
    assert [line][1..] == [];
    assert ParseSections([line]) == Prefixed([r], ParseSections([]));
    assert [r] + [] == [r];
    assert Prefixed([r], ParseSections([])) == Success([r]);
  }

  /** Lines in the prompted format parse to their records, one per line, in order. */
  lemma TableRoundTrip(rows: seq<Record>)
    requires |rows| >= 1
    requires forall i, c :: 0 <= i < |rows| ==> SafeValue(rows[i].Get(c))
    ensures Parse(FormatTable(rows)) == Success(rows)
  {
    var lines := seq(|rows|, i requires 0 <= i < |rows| => FormatLine(rows[i]));
    forall i | 0 <= i < |rows|
      ensures !Contains(lines[i], "\n") && ParseSection(lines[i]) == Success(rows[i])
    {
      LineParsesBack(rows[i]);
      ContainsChar(lines[i], '\n');
    }
    SplitJoin(lines, "\n");
    SectionsParsedInOrder(lines);
    assert ParseSections(lines).value == rows;
  }

  /** Letters, digits and spaces other than the letters d, y, B, M, E and Q: each label has one of those. */
  predicate PlainChar(ch: char) {
    ch == ' ' || ('0' <= ch <= '9') ||
    ('a' <= ch <= 'z' && ch != 'd' && ch != 'y') ||
    ('A' <= ch <= 'Z' && ch != 'B' && ch != 'M' && ch != 'E' && ch != 'Q')
  }

  /** A value made of plain characters lacks one letter of every label, so it is safe. */
  lemma PlainValueIsSafe(v: string)
    requires forall k :: 0 <= k < |v| ==> PlainChar(v[k])
    ensures SafeValue(v)
  {
    forall c ensures !Contains(v, Label(c)) {
      match c
      case ProductName => MissingChar(v, Label(c), 3);
      case Category => MissingChar(v, Label(c), 7);
      case Brand => MissingChar(v, Label(c), 0);
      case Mrp => MissingChar(v, Label(c), 0);
      case Manufacturer => MissingChar(v, Label(c), 0);
      case ExpiryDate => MissingChar(v, Label(c), 0);
      case Quantity => MissingChar(v, Label(c), 0);
    }
  }

  const ExampleText: string :=
    Join(["Product Name: Soap", "Category: Personal Care", "Brand: X", "MRP: 50",
          "Manufacturer: Y", "Expiry Date: NA", "Quantity: 100g"], ", ")

  const ExampleRecord: Record := Record("Soap", "Personal Care", "X", "50", "Y", "NA", "100g")

  lemma ExampleRecordSafe()
    ensures forall c :: SafeValue(ExampleRecord.Get(c))
  {
    forall c ensures SafeValue(ExampleRecord.Get(c)) {
      match c
      case ProductName => PlainValueIsSafe("Soap");
      case Category => PlainValueIsSafe("Personal Care");
      case Brand => PlainValueIsSafe("X");
      case Mrp => PlainValueIsSafe("50");
      case Manufacturer => PlainValueIsSafe("Y");
      case ExpiryDate => PlainValueIsSafe("NA");
      case Quantity => PlainValueIsSafe("100g");
    }
  }

  lemma ExampleNameField()
    ensures Fields(ExampleRecord)[0] == "Product Name: Soap"
  {
    assert Fields(ExampleRecord)[0] == "Product Name" + ": " + "Soap";
  }

  lemma ExampleCategoryField()
    ensures Fields(ExampleRecord)[1] == "Category: Personal Care"
  {
    assert Fields(ExampleRecord)[1] == "Category" + ": " + "Personal Care";
  }

  lemma ExampleMiddleFields()
    ensures Fields(ExampleRecord)[2] == "Brand: X"
    ensures Fields(ExampleRecord)[3] == "MRP: 50"
  {
  }

  lemma ExampleTailFields()
    ensures Fields(ExampleRecord)[4] == "Manufacturer: Y"
    ensures Fields(ExampleRecord)[5] == "Expiry Date: NA"
    ensures Fields(ExampleRecord)[6] == "Quantity: 100g"
  {
    assert Fields(ExampleRecord)[4] == "Manufacturer" + ": " + "Y";
    assert Fields(ExampleRecord)[5] == "Expiry Date" + ": " + "NA";
  }

  /** The example record written in the prompted format is the example line. */
  lemma ExampleIsFormatted()
    ensures FormatLine(ExampleRecord) == ExampleText
  {
    ExampleNameField();
    ExampleCategoryField();
    ExampleMiddleFields();
    ExampleTailFields();
    assert Fields(ExampleRecord) == ["Product Name: Soap", "Category: Personal Care", "Brand: X", "MRP: 50",
                                     "Manufacturer: Y", "Expiry Date: NA", "Quantity: 100g"];
  }

  /** The documented example line parses to one record with its seven values in column order. */
  lemma ExampleLine()
    ensures Parse(ExampleText) == Success([ExampleRecord])
  {
    ExampleRecordSafe();
    ExampleIsFormatted();
    LineRoundTrip(ExampleRecord);
  }
}
