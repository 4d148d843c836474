/**
 * The converter from apidoc's JSON (a project description and a list of
 * endpoint descriptions) to one API Blueprint document. Every renderer is a
 * function of its input; the lemmas state the layout of what it produces.
 */
module Apidoc2Blue {
  import opened Wrappers
  import opened Text
  import opened Patterns

  // ---------------------------------------------------------------- input

  /** A `header` or `footer` block of the project. */
  datatype Block = Block(title: string, content: string)

  /** The project description. Absent optional properties are `None`. */
  datatype Project = Project(
    title: string,
    description: string,
    url: string,
    header: Option<Block>,
    footer: Option<Block>)

  /** One entry of `parameter.fields.Parameter`. */
  datatype ParameterField = ParameterField(
    field: string,
    typ: Option<string>,
    optional: bool,
    defaultValue: Option<string>,
    description: string)

  /** One field of a success or error group; `field` is a dotted path. */
  datatype AttributeField = AttributeField(
    field: string,
    typ: Option<string>,
    description: string)

  /** One key of a response's `fields` object with the fields listed under it. */
  datatype FieldGroup = FieldGroup(key: string, fields: seq<AttributeField>)

  datatype Example = Example(content: string)

  /** The `success` or `error` object of an endpoint. */
  datatype ResponseSpec = ResponseSpec(
    fields: Option<seq<FieldGroup>>,
    examples: Option<seq<Example>>)

  /** One endpoint; `typ` is the HTTP method in any case. */
  datatype Endpoint = Endpoint(
    typ: string,
    url: string,
    title: Option<string>,
    description: Option<string>,
    parameters: Option<seq<ParameterField>>,
    success: Option<ResponseSpec>,
    error: Option<ResponseSpec>)

  // ---------------------------------------------------------------- getType

  /**
   * The lookup object of `getType`: the tokens it renames and their new
   * names; `None` for every other token.
   */
  function TypeTable(lower: string): Option<string> {
    if lower == "integer" || lower == "bigint" || lower == "int" then Some("number")
    else if lower == "bool" then Some("boolean")
    else if lower == "datetime" || lower == "date" || lower == "xlsx" || lower == "file" then Some("string")
    else None
  }

  /** `getType`: the lower-cased token, renamed when the table has it. */
  function GetType(t: Option<string>): string {
    match t
    case None => ""
    case Some(token) =>
      var lower := Lower(token);
      match TypeTable(lower)
      case Some(renamed) => renamed
      case None => lower
  }

  /** Every new name of the table is a lower-case word that is no key of the table. */
  lemma TableValues(key: string)
    requires TypeTable(key).Some?
    ensures var v := TypeTable(key).value;
      && v in {"number", "boolean", "string"}
      && v != key
      && IsLowerCase(v)
      && TypeTable(v).None?
  {
    var v := TypeTable(key).value;
    if v == "number" {
      assert IsLowerCase("number");
    } else if v == "boolean" {
      assert IsLowerCase("boolean");
    } else {
      assert IsLowerCase("string");
    }
  }

  /**
   * An absent type is empty; otherwise the result is the lower-cased token
   * exactly when the table does not rename it, and one of the new names
   * otherwise. Either way it is lower-case and no key of the table.
   */
  lemma GetTypeNormalForm(t: Option<string>)
    ensures t.None? ==> GetType(t) == ""
    ensures t.Some? ==> (GetType(t) == Lower(t.value) <==> TypeTable(Lower(t.value)).None?)
    ensures t.Some? && TypeTable(Lower(t.value)).Some? ==> GetType(t) in {"number", "boolean", "string"}
    ensures IsLowerCase(GetType(t))
    ensures TypeTable(GetType(t)).None?
  {
    match t
    case None =>
    case Some(token) =>
      var lower := Lower(token);
      LowerCaseFixed(token);
      if TypeTable(lower).Some? {
        TableValues(lower);
      }
  }

  /** A line-free type normalises to a line-free type. */
  lemma GetTypeKeepsOutLineBreak(t: Option<string>)
    requires t.Some? ==> '\n' !in t.value
    ensures '\n' !in GetType(t)
  {
    if t.Some? {
      LowerKeepsOut(t.value, '\n');
      if TypeTable(Lower(t.value)).Some? {
        TableValues(Lower(t.value));
      }
    }
  }

  /** Normalising a normalised type changes nothing. */
  lemma GetTypeIdempotent(t: Option<string>)
    ensures GetType(Some(GetType(t))) == GetType(t)
  {
    GetTypeNormalForm(t);
    LowerCaseFixed(GetType(t));
  }

  /** A lower-case token outside the table is its own type. */
  lemma GetTypeKeepsPlainTokens(token: string)
    requires IsLowerCase(token) && TypeTable(token).None?
    ensures GetType(Some(token)) == token
  {
    LowerCaseFixed(token);
  }

  /** `Integer` is renamed `number`. */
  lemma GetTypeRenames()
    ensures GetType(Some("Integer")) == "number"
  {
    assert Lower("Integer") == "integer";
  }

  /** A token outside the table passes through, lower-cased. */
  lemma GetTypePassesThrough()
    ensures GetType(Some("Object")) == "object"
  {
    assert Lower("Object") == "object";
    assert TypeTable("object") == None;
  }

  /**
   * What `map[lower] || lower` yields in JavaScript, where the object
   * literal also inherits from `Object.prototype`: of its names only
   * `constructor` and `__proto__` are all lower-case, and both values are
   * truthy and render as the text given here.
   */
  function InheritedLookup(key: string): Option<string> {
    if key == "constructor" then Some("function Object() { [native code] }")
    else if key == "__proto__" then Some("[object Object]")
    else None
  }

  /** `getType` as written, with the inherited properties of the lookup object. */
  function GetTypeAsWritten(t: Option<string>): (r: string)
    ensures t.Some? && TypeTable(Lower(t.value)).None? && InheritedLookup(Lower(t.value)).None?
      ==> r == GetType(t)
  {
    match t
    case None => ""
    case Some(token) =>
      var lower := Lower(token);
      if TypeTable(lower).Some? then TypeTable(lower).value
      else if InheritedLookup(lower).Some? then InheritedLookup(lower).value
      else lower
  }

  lemma AsWrittenLowers(token: string)
    requires TypeTable(Lower(token)).None? && InheritedLookup(Lower(token)).None?
    ensures GetTypeAsWritten(Some(token)) == Lower(token)
  {
  }

  const ObjectConstructorText := "function Object() { [native code] }"

  /** As written, the token `constructor` turns into the text of a JavaScript function. */
  lemma GetTypeAsWrittenConstructor()
    ensures GetTypeAsWritten(Some("constructor")) == ObjectConstructorText
  {
    var c := "constructor";
    assert IsLowerCase(c);
    assert TypeTable(c) == None;
    AsWrittenInherited(c);
  }

  lemma AsWrittenInherited(token: string)
    requires IsLowerCase(token) && TypeTable(token).None?
    ensures GetTypeAsWritten(Some(token)) == InheritedLookup(token).GetOr(token)
  {
    LowerCaseFixed(token);
  }

  /** With the lookup restricted to the table, `constructor` passes through. */
  lemma GetTypeConstructor()
    ensures GetType(Some("constructor")) == "constructor"
  {
    var c := "constructor";
    assert IsLowerCase(c);
    assert TypeTable(c) == None;
    GetTypeKeepsPlainTokens(c);
  }

  /** As written, normalising twice differs from normalising once. */
  lemma GetTypeAsWrittenNotIdempotent()
    ensures var once := GetTypeAsWritten(Some("constructor"));
      GetTypeAsWritten(Some(once)) != once
  {
    GetTypeAsWrittenConstructor();
    ConstructorTextChanges();
  }

  /** The text of the inherited constructor is itself changed by lower-casing. */
  lemma ConstructorTextChanges()
    ensures GetTypeAsWritten(Some(ObjectConstructorText)) != ObjectConstructorText
  {
    LongMixedCaseTokenChanges(ObjectConstructorText, 9);
  }

  /** A token too long to be looked up and holding a capital is changed by lower-casing. */
  lemma LongMixedCaseTokenChanges(token: string, i: nat)
    requires |token| > 11 && i < |token| && 'A' <= token[i] <= 'Z'
    ensures GetTypeAsWritten(Some(token)) != token
  {
    var lowered := Lower(token);
    assert TypeTable(lowered).None? && InheritedLookup(lowered).None? by {
      TypeTableKeysAreShort(lowered);
    }
    AsWrittenLowers(token);
    assert lowered[i] != token[i];
  }

  lemma TypeTableKeysAreShort(key: string)
    requires |key| > 8
    ensures TypeTable(key).None?
  {
  }


  // ---------------------------------------------------------------- examples

  /** Each line with `pad` in front. */
  function PrefixEach(lines: seq<string>, pad: string): (r: seq<string>)
    ensures |r| == |lines|
    ensures forall k :: 0 <= k < |lines| ==> r[k] == pad + lines[k]
  {
    if lines == [] then [] else [pad + lines[0]] + PrefixEach(lines[1..], pad)
  }

  /** `fillStr(content, num, str)`: `num` copies of `str` in front of every `\n`-separated line. */
  function FillStr(content: string, num: nat, str: string): string {
    Join(PrefixEach(Split(content, '\n'), Repeat(str, num)), "\n")
  }

  /**
   * When `str` holds no line break, the padded text has as many lines as the
   * content, and each is the padding followed by the content's line.
   */
  lemma FillStrLines(content: string, num: nat, str: string)
    requires '\n' !in str
    ensures Split(FillStr(content, num, str), '\n') == PrefixEach(Split(content, '\n'), Repeat(str, num))
  {
    var pad := Repeat(str, num);
    var padded := PrefixEach(Split(content, '\n'), pad);
    RepeatKeepsOut(str, num, '\n');
    SplitPieces(content, '\n');
    forall k | 0 <= k < |padded| ensures '\n' !in padded[k] {
      assert padded[k] == pad + Split(content, '\n')[k];
    }
    SplitJoin(padded, '\n');
  }

  /** The line `k` of an example block: eight blanks, then the line `k` of the content. */
  lemma FillStrPadding(content: string, k: nat)
    requires k < Count(content, '\n') + 1
    ensures var lines := Split(FillStr(content, 8, " "), '\n');
      && |Split(content, '\n')| == |lines| == Count(content, '\n') + 1
      && |lines[k]| >= 8
      && (forall i :: 0 <= i < 8 ==> lines[k][i] == ' ')
      && lines[k][8..] == Split(content, '\n')[k]
  {
    FillStrLines(content, 8, " ");
    SplitCount(content, '\n');
    RepeatBlank(" ", 8);
  }

  /** Each line without its first `width` characters (nothing when it is shorter). */
  function DropEach(lines: seq<string>, width: nat): (r: seq<string>)
    ensures |r| == |lines|
    ensures forall k :: 0 <= k < |lines| ==>
      r[k] == if width <= |lines[k]| then lines[k][width..] else ""
  {
    if lines == [] then []
    else [if width <= |lines[0]| then lines[0][width..] else ""] + DropEach(lines[1..], width)
  }

  /** Takes `width` characters off the front of every line. */
  function UnfillStr(text: string, width: nat): string {
    Join(DropEach(Split(text, '\n'), width), "\n")
  }

  /** Taking the padding off again gives back the example content. */
  lemma FillStrRoundTrip(content: string)
    ensures UnfillStr(FillStr(content, 8, " "), 8) == content
  {
    var lines := Split(content, '\n');
    FillStrLines(content, 8, " ");
    assert DropEach(PrefixEach(lines, Repeat(" ", 8)), 8) == lines;
    JoinSplit(content, '\n');
  }

  /** The blocks of the examples, in order. */
  function ExampleBlocks(examples: seq<Example>): (r: seq<string>)
    ensures |r| == |examples|
    ensures forall k :: 0 <= k < |examples| ==> r[k] == FillStr(examples[k].content, 8, " ")
  {
    if examples == [] then []
    else [FillStr(examples[0].content, 8, " ")] + ExampleBlocks(examples[1..])
  }

  const BodyHeader := "    + Body\n"

  /** `parseExample`: the body header and the examples' blocks, joined by line breaks. */
  function ParseExample(examples: Option<seq<Example>>): string {
    Join([BodyHeader] + ExampleBlocks(examples.GetOr([])), "\n")
  }

  /** The body header opens the block, and is all of it when there are no examples. */
  lemma ParseExampleHeader(examples: Option<seq<Example>>)
    ensures BodyHeader <= ParseExample(examples)
    ensures examples.GetOr([]) == [] ==> ParseExample(examples) == BodyHeader
  {
    JoinHead([BodyHeader] + ExampleBlocks(examples.GetOr([])), "\n");
  }

  /** One more example adds a line break and its padded content at the end. */
  lemma ParseExampleAppend(examples: seq<Example>, e: Example)
    ensures ParseExample(Some(examples + [e]))
         == ParseExample(Some(examples)) + "\n" + FillStr(e.content, 8, " ")
  {
    var parts := [BodyHeader] + ExampleBlocks(examples);
    assert [BodyHeader] + ExampleBlocks(examples + [e]) == parts + [FillStr(e.content, 8, " ")];
    JoinAppend(parts, FillStr(e.content, 8, " "), "\n");
  }

  // ---------------------------------------------------------------- attributes

  /** The last `.`-separated segment of a dotted path. */
  function LastSegment(path: string): string {
    var segs := Split(path, '.');
    segs[|segs| - 1]
  }

  /**
   * The last segment holds no dot, ends the path, and is preceded by a dot
   * unless it is the whole path.
   */
  lemma LastSegmentSpec(path: string)
    ensures var name := LastSegment(path);
      && '.' !in name
      && |name| <= |path| && path[|path| - |name|..] == name
      && (|name| < |path| ==> path[|path| - |name| - 1] == '.')
  {
    var segs := Split(path, '.');
    SplitPieces(path, '.');
    JoinSplit(path, '.');
    if |segs| > 1 {
      assert segs == segs[..|segs| - 1] + [segs[|segs| - 1]];
      JoinAppend(segs[..|segs| - 1], segs[|segs| - 1], ".");
    }
  }

  /** `parseAttributes` on one field: indentation, `+ `, name, `(type)`, ` - `, description. */
  function AttributeLine(f: AttributeField): string {
    var segs := Split(f.field, '.');
    Repeat("    ", |segs| + 1) + ("+ " + segs[|segs| - 1] + " (" + GetType(f.typ) + ") - " + f.description)
  }

  /**
   * The line is indented by four blanks for each path segment and four more,
   * and the item after the indentation names the last segment.
   */
  lemma AttributeLineLayout(f: AttributeField)
    ensures var d := 4 * (Count(f.field, '.') + 2); var line := AttributeLine(f);
      && |line| > d + 1
      && (forall i :: 0 <= i < d ==> line[i] == ' ')
      && line[d..] == "+ " + LastSegment(f.field) + " (" + GetType(f.typ) + ") - " + f.description
  {
    var segs := Split(f.field, '.');
    var indent := Repeat("    ", |segs| + 1);
    var rest := "+ " + LastSegment(f.field) + " (" + GetType(f.typ) + ") - " + f.description;
    var d := 4 * (Count(f.field, '.') + 2);
    assert AttributeLine(f) == indent + rest;
    assert |indent| == d && forall i :: 0 <= i < |indent| ==> indent[i] == ' ' by {
      SplitCount(f.field, '.');
      RepeatBlank("    ", |segs| + 1);
      assert |"    "| == 4;
    }
    IndentedText(indent, rest, d);
  }

  /** A text of `d` blanks followed by the rest: blanks up to `d`, the rest after. */
  lemma IndentedText(indent: string, rest: string, d: nat)
    requires |indent| == d
    requires forall i :: 0 <= i < |indent| ==> indent[i] == ' '
    ensures |indent + rest| == d + |rest|
    ensures forall i :: 0 <= i < d ==> (indent + rest)[i] == ' '
    ensures (indent + rest)[d..] == rest
  {
  }

  /** The lines of the fields, in order. */
  function AttributeLines(fields: seq<AttributeField>): (r: seq<string>)
    ensures |r| == |fields|
    ensures forall k :: 0 <= k < |fields| ==> r[k] == AttributeLine(fields[k])
  {
    if fields == [] then [] else [AttributeLine(fields[0])] + AttributeLines(fields[1..])
  }

  /** `parseAttributes`: the attribute lines joined by line breaks. */
  function ParseAttributes(fields: seq<AttributeField>): string {
    Join(AttributeLines(fields), "\n")
  }

  /** A field whose texts hold no line break. */
  predicate SingleLine(f: AttributeField) {
    && '\n' !in f.field
    && '\n' !in f.description
    && (f.typ.Some? ==> '\n' !in f.typ.value)
  }

  /** A field whose texts are line-free renders as one line. */
  lemma AttributeLineSingle(f: AttributeField)
    requires SingleLine(f)
    ensures '\n' !in AttributeLine(f)
  {
    var segs := Split(f.field, '.');
    var indent := Repeat("    ", |segs| + 1);
    RepeatKeepsOut("    ", |segs| + 1, '\n');
    GetTypeKeepsOutLineBreak(f.typ);
    LastSegmentKeepsOut(f.field, '\n');
    assert AttributeLine(f) == indent + ("+ " + LastSegment(f.field) + " (" + GetType(f.typ) + ") - " + f.description);
  }

  /** The last segment only holds characters of the path. */
  lemma LastSegmentKeepsOut(path: string, c: char)
    requires c !in path
    ensures c !in LastSegment(path)
  {
    var name := LastSegment(path);
    LastSegmentSpec(path);
    assert forall i :: 0 <= i < |name| ==> name[i] == path[|path| - |name| + i];
  }

  /** No fields, no text; otherwise one line per field, in the order of the fields. */
  lemma ParseAttributesLines(fields: seq<AttributeField>)
    requires forall k :: 0 <= k < |fields| ==> SingleLine(fields[k])
    ensures fields == [] ==> ParseAttributes(fields) == ""
    ensures fields != [] ==> Split(ParseAttributes(fields), '\n') == AttributeLines(fields)
  {
    var lines := AttributeLines(fields);
    forall k | 0 <= k < |lines| ensures '\n' !in lines[k] {
      AttributeLineSingle(fields[k]);
    }
    if fields != [] {
      SplitJoin(lines, '\n');
    }
  }

  /**
   * A field nested two levels deep, such as `data.user.id`, is indented by
   * sixteen blanks and named by its last segment.
   */
  lemma AttributeLineNested(f: AttributeField, a: string, b: string, c: string)
    requires '.' !in a && '.' !in b && '.' !in c
    requires f.field == a + "." + b + "." + c
    ensures var line := AttributeLine(f);
      && |line| > 17
      && (forall i :: 0 <= i < 16 ==> line[i] == ' ')
      && line[16..] == "+ " + c + " (" + GetType(f.typ) + ") - " + f.description
  {
    var tail := b + "." + c;
    assert f.field == a + ['.'] + tail;
    assert tail == b + ['.'] + c;
    SplitAround(a, tail, '.');
    SplitAround(b, c, '.');
    SplitNone(a, '.');
    SplitNone(b, '.');
    SplitNone(c, '.');
    SplitCount(f.field, '.');
    assert Split(f.field, '.') == [a, b, c];
    AttributeLineLayout(f);
  }

  // ---------------------------------------------------------------- responses

  /** The heading of a response group: `+ Response ` and the key without its `\w+\s+` runs. */
  function ResponseHeading(key: string): string {
    "+ Response " + StripWordSpaceRuns(key) + "\n"
  }

  /** The attributes of a group under their `+ Attributes (object)` line and a blank line. */
  function AttributesBlock(fields: seq<AttributeField>): string {
    "    + Attributes (object)\n\n" + ParseAttributes(fields)
  }

  /** The parts each group contributes, in order: its heading and its attributes. */
  function ResponseParts(groups: seq<FieldGroup>): (parts: seq<string>)
    ensures |parts| == 2 * |groups|
  {
    if groups == [] then []
    else [ResponseHeading(groups[0].key), AttributesBlock(groups[0].fields)] + ResponseParts(groups[1..])
  }

  /** Group `k` contributes the parts `2k` (its heading) and `2k + 1` (its attributes). */
  lemma {:induction false} ResponsePartsAt(groups: seq<FieldGroup>, k: nat)
    requires k < |groups|
    ensures ResponseParts(groups)[2 * k] == ResponseHeading(groups[k].key)
    ensures ResponseParts(groups)[2 * k + 1] == AttributesBlock(groups[k].fields)
  {
    var first := [ResponseHeading(groups[0].key), AttributesBlock(groups[0].fields)];
    var rest := ResponseParts(groups[1..]);
    assert ResponseParts(groups) == first + rest;
    if k > 0 {
      ResponsePartsAt(groups[1..], k - 1);
      assert groups[1..][k - 1] == groups[k];
      assert (first + rest)[2 * k] == rest[2 * (k - 1)];
      assert (first + rest)[2 * k + 1] == rest[2 * (k - 1) + 1];
    }
  }

  /** `parseResItem`: the groups' parts joined by line breaks, a blank line, the example block. */
  function ParseResItem(spec: ResponseSpec): string {
    Join(ResponseParts(spec.fields.GetOr([])), "\n") + "\n\n" + ParseExample(spec.examples)
  }

  /**
   * The example block closes every response, also one without groups; the
   * first group's heading opens it otherwise.
   */
  lemma ParseResItemLayout(spec: ResponseSpec)
    ensures var ex := ParseExample(spec.examples); var r := ParseResItem(spec);
      |r| >= |ex| + 2 && r[|r| - |ex| - 2..] == "\n\n" + ex
    ensures spec.fields.GetOr([]) == [] ==> ParseResItem(spec) == "\n\n" + ParseExample(spec.examples)
    ensures spec.fields.GetOr([]) != [] ==> ResponseHeading(spec.fields.value[0].key) <= ParseResItem(spec)
  {
    var parts := ResponseParts(spec.fields.GetOr([]));
    var j := Join(parts, "\n");
    var tail := "\n\n" + ParseExample(spec.examples);
    assert ParseResItem(spec) == j + tail by {
      Regroup3(j, "\n\n", ParseExample(spec.examples));
    }
    Halves(j, tail);
    if parts != [] {
      JoinHead(parts, "\n");
      PrefixExtends(parts[0], j, tail);
    }
  }

  /** A response heading never leaves a word character right before white space. */
  lemma ResponseHeadingClean(key: string)
    ensures var h := ResponseHeading(key);
      && "+ Response " <= h && h[|h| - 1] == '\n'
      && NoWordBeforeSpace(h[11..|h| - 1])
  {
    StripLeavesNoMatch(key);
    var h := ResponseHeading(key);
    assert h[11..|h| - 1] == StripWordSpaceRuns(key);
  }

  /** A group with the key `200 OK` is headed `+ Response OK`. */
  lemma ResItemStatusLabel(spec: ResponseSpec)
    requires spec.fields.Some? && |spec.fields.value| > 0 && spec.fields.value[0].key == "200 OK"
    ensures "+ Response " + "OK" + "\n" <= ParseResItem(spec)
  {
    StripStatusLabel();
    ParseResItemLayout(spec);
  }

  /** `parseResponse`: the success and error renderings that are present, joined by a blank line. */
  function ParseResponse(e: Endpoint): string {
    var ok := if e.success.Some? then [ParseResItem(e.success.value)] else [];
    var bad := if e.error.Some? then [ParseResItem(e.error.value)] else [];
    Join(ok + bad, "\n\n")
  }

  /** Success comes before error, and an absent one leaves nothing behind. */
  lemma ParseResponseOrder(e: Endpoint)
    ensures e.success.None? && e.error.None? ==> ParseResponse(e) == ""
    ensures e.success.Some? && e.error.None? ==> ParseResponse(e) == ParseResItem(e.success.value)
    ensures e.success.None? && e.error.Some? ==> ParseResponse(e) == ParseResItem(e.error.value)
    ensures e.success.Some? && e.error.Some? ==>
      ParseResponse(e) == ParseResItem(e.success.value) + "\n\n" + ParseResItem(e.error.value)
  {
    if e.success.Some? && e.error.Some? {
      JoinCons(ParseResItem(e.success.value), [ParseResItem(e.error.value)], "\n\n");
    }
  }

  // ---------------------------------------------------------------- parameters

  /** The type of a parameter, lower-cased; empty when it has none. */
  function ParameterType(t: Option<string>): string {
    Lower(t.GetOr(""))
  }

  const DefaultLabel := "\n 默认值是：<code>"

  /** A default value is shown when it is present and not empty (JavaScript truthiness). */
  predicate HasDefault(p: ParameterField) {
    p.defaultValue.Some? && p.defaultValue.value != ""
  }

  function DefaultNote(p: ParameterField): string {
    if HasDefault(p) then DefaultLabel + p.defaultValue.value + "</code>" else ""
  }

  /** The item up to where the optional marker may go. */
  function ItemHead(p: ParameterField): string {
    "    + " + RemoveFirst(p.field, ':') + " (" + ParameterType(p.typ)
  }

  /** The item from the optional marker to the description. */
  function ItemTail(p: ParameterField): string {
    (if p.optional then ", optional" else "") + ") ... " + p.description
  }

  /** One parameter item of `parseParameter`. */
  function ParameterItem(p: ParameterField): string {
    ItemHead(p) + ItemTail(p) + DefaultNote(p)
  }

  /**
   * Right after the type the item holds `, optional) ` exactly when the
   * parameter is optional, and `) ... ` otherwise.
   */
  lemma OptionalMarkerIff(p: ParameterField)
    ensures var item := ParameterItem(p); var n := |ItemHead(p)|;
      && |item| >= n + 6
      && (item[n] == ',' <==> p.optional)
      && (p.optional ==> |item| >= n + 12 && item[n..n + 12] == ", optional) ")
      && (!p.optional ==> item[n..n + 6] == ") ... ")
  {
    var rest := ItemTail(p) + DefaultNote(p);
    assert ParameterItem(p) == ItemHead(p) + rest by {
      Regroup3(ItemHead(p), ItemTail(p), DefaultNote(p));
    }
    Halves(ItemHead(p), rest);
    if p.optional {
      assert ItemTail(p) == ", optional) ... " + p.description;
      assert rest[..12] == ", optional) ";
    } else {
      assert ItemTail(p) == ") ... " + p.description;
      assert rest[..6] == ") ... ";
    }
  }

  /** The item's name is the field with its first colon removed, wherever that stands. */
  lemma ItemName(p: ParameterField)
    ensures ':' !in p.field ==> "    + " + p.field + " (" <= ItemHead(p)
    ensures ':' in p.field ==>
      var i := FirstIndex(p.field, ':');
      "    + " + (p.field[..i] + p.field[i + 1..]) + " (" <= ItemHead(p)
  {
    RemoveFirstSpec(p.field, ':');
    var opening := "    + " + RemoveFirst(p.field, ':') + " (";
    PrefixExtends(opening, opening, ParameterType(p.typ));
  }

  /** A leading colon and an interior colon are both removed, but only the first of them. */
  lemma ParameterNameExample()
    ensures RemoveFirst(":id", ':') == "id"
    ensures RemoveFirst("a:b:c", ':') == "ab:c"
  {
    assert FirstIndex("a:b:c", ':') == 1;
  }

  /** With line-free texts, an item spans two lines exactly when it has a default value. */
  lemma DefaultNoteIff(p: ParameterField)
    requires '\n' !in p.field && '\n' !in p.description
    requires p.typ.Some? ==> '\n' !in p.typ.value
    ensures '\n' in ParameterItem(p) <==> HasDefault(p)
  {
    var body := ItemHead(p) + ItemTail(p);
    ItemBodyLineFree(p);
    Halves(body, DefaultNote(p));
    if HasDefault(p) {
      assert ParameterItem(p)[|body|] == DefaultNote(p)[0] == '\n';
    }
  }

  lemma ItemBodyLineFree(p: ParameterField)
    requires '\n' !in p.field && '\n' !in p.description
    requires p.typ.Some? ==> '\n' !in p.typ.value
    ensures '\n' !in ItemHead(p) + ItemTail(p)
  {
    LowerKeepsOut(p.typ.GetOr(""), '\n');
    RemoveFirstSpec(p.field, ':');
    if ':' in p.field {
      var i := FirstIndex(p.field, ':');
      assert RemoveFirst(p.field, ':') == p.field[..i] + p.field[i + 1..];
    }
  }

  /** The items of the parameters, in order. */
  function ParameterItems(ps: seq<ParameterField>): (r: seq<string>)
    ensures |r| == |ps|
    ensures forall k :: 0 <= k < |ps| ==> r[k] == ParameterItem(ps[k])
  {
    if ps == [] then [] else [ParameterItem(ps[0])] + ParameterItems(ps[1..])
  }

  const ParametersHeader := "+ Parameters\n"

  /** `parseParameter`: the header and one item per parameter, joined by line breaks. */
  function ParseParameter(e: Endpoint): string {
    Join([ParametersHeader] + ParameterItems(e.parameters.GetOr([])), "\n")
  }

  /** The header opens the block, and is all of it when there are no parameters. */
  lemma ParseParameterHeader(e: Endpoint)
    ensures ParametersHeader <= ParseParameter(e)
    ensures e.parameters.GetOr([]) == [] ==> ParseParameter(e) == ParametersHeader
  {
    JoinHead([ParametersHeader] + ParameterItems(e.parameters.GetOr([])), "\n");
  }

  /** One more parameter adds a line break and its item at the end. */
  lemma ParseParameterAppend(e: Endpoint, ps: seq<ParameterField>, p: ParameterField)
    ensures ParseParameter(e.(parameters := Some(ps + [p])))
         == ParseParameter(e.(parameters := Some(ps))) + "\n" + ParameterItem(p)
  {
    var parts := [ParametersHeader] + ParameterItems(ps);
    assert [ParametersHeader] + ParameterItems(ps + [p]) == parts + [ParameterItem(p)];
    JoinAppend(parts, ParameterItem(p), "\n");
  }

  /** With single-line items: the header line, a blank line, then one line per parameter. */
  lemma ParseParameterLines(e: Endpoint)
    requires forall k :: 0 <= k < |e.parameters.GetOr([])| ==>
      '\n' !in ParameterItem(e.parameters.GetOr([])[k])
    ensures Split(ParseParameter(e), '\n') == ["+ Parameters", ""] + ParameterItems(e.parameters.GetOr([]))
  {
    var items := ParameterItems(e.parameters.GetOr([]));
    var top := "+ Parameters";
    assert ParametersHeader == top + "\n";
    HeaderLines(top, items);
  }

  /** A line-free header ending in a line break, joined to line-free parts by line breaks. */
  lemma {:induction false} HeaderLines(top: string, items: seq<string>)
    requires '\n' !in top
    requires forall k :: 0 <= k < |items| ==> '\n' !in items[k]
    ensures Split(Join([top + "\n"] + items, "\n"), '\n') == [top, ""] + items
  {
    var nl: string := "\n";
    SplitNone(top, '\n');
    if items == [] {
      assert Join([top + nl], nl) == top + nl + [];
      SplitAround(top, [], '\n');
    } else {
      LinesAfterHeader(top, items);
    }
  }

  lemma LinesAfterHeader(top: string, items: seq<string>)
    requires '\n' !in top && items != []
    requires forall k :: 0 <= k < |items| ==> '\n' !in items[k]
    ensures Split(Join([top + "\n"] + items, "\n"), '\n') == [top, ""] + items
  {
    var nl: string := "\n";
    var rest := Join(items, nl);
    var u := nl + rest;
    assert Join([top + nl] + items, nl) == top + nl + u by {
      JoinCons(top + nl, items, nl);
      Regroup3(top + nl, nl, rest);
    }
    assert Split(u, '\n') == [""] + items by {
      SplitLeading(rest, '\n');
      SplitJoin(items, '\n');
    }
    assert Split(top + nl + u, '\n') == [top] + Split(u, '\n') by {
      SplitNone(top, '\n');
      SplitAround(top, u, '\n');
    }
    PairPrefix(top, "", items);
  }

  lemma PairPrefix(x: string, y: string, rest: seq<string>)
    ensures [x] + ([y] + rest) == [x, y] + rest
  {
  }

  // ---------------------------------------------------------------- title

  /** The path of the heading: a slash in front, and a trailing `:name` made `{name}`. */
  function TitlePath(url: string): string {
    RewriteTrailingParam(WithLeadingSlash(url))
  }

  /**
   * The path starts with a slash; a trailing `:name` of the slashed url
   * becomes `{name}`, and nothing else changes.
   */
  lemma TitlePathSpec(url: string)
    ensures StartsWithSlash(TitlePath(url))
    ensures var p := WithLeadingSlash(url);
      forall i :: ParamAt(p, i) ==> TitlePath(url) == p[..i] + "{" + p[i + 1..] + "}"
    ensures (forall i :: !ParamAt(WithLeadingSlash(url), i)) ==> TitlePath(url) == WithLeadingSlash(url)
  {
  }

  /** `parseTitle`: `# `, the method, the path, a blank line, the title and the description. */
  function ParseTitle(e: Endpoint): string {
    "# " + Upper(e.typ) + " " + TitlePath(e.url) + "\n\n" + e.title.GetOr("") + e.description.GetOr("")
  }

  /**
   * The heading line holds the upper-cased method and a path that starts
   * with a slash; title and description follow with nothing between them.
   */
  lemma ParseTitleHeading(e: Endpoint)
    ensures "# " + Upper(e.typ) + " /" <= ParseTitle(e)
    ensures var head := "# " + Upper(e.typ) + " " + TitlePath(e.url) + "\n\n";
      head <= ParseTitle(e) && ParseTitle(e)[|head|..] == e.title.GetOr("") + e.description.GetOr("")
  {
    TitlePathSpec(e.url);
    var head := "# " + Upper(e.typ) + " " + TitlePath(e.url) + "\n\n";
    assert ParseTitle(e) == head + (e.title.GetOr("") + e.description.GetOr(""));
  }

  /** `get` on `user/:id` is headed `# GET /user/{id}`. */
  lemma ParseTitleExample(e: Endpoint)
    requires e.typ == "get" && e.url == "user/:id" && e.title.None? && e.description.None?
    ensures ParseTitle(e) == "# " + "GET" + " " + "/user/{id}" + "\n\n"
  {
    TitlePathExample(e.url);
    UpperGet(e.typ);
    var u, t := Upper(e.typ), TitlePath(e.url);
    assert ParseTitle(e) == "# " + u + " " + t + "\n\n" + "" + "";
  }

  /** The method name is upper-cased letter by letter. */
  lemma UpperGet(m: string)
    requires m == "get"
    ensures Upper(m) == "GET"
  {
  }

  /** A relative url gets its slash, and its trailing `:id` becomes `{id}`. */
  lemma TitlePathExample(url: string)
    requires url == "user/:id"
    ensures TitlePath(url) == "/user/{id}"
  {
    var p := WithLeadingSlash(url);
    assert p == "/user/:id";
    assert ParamAt(p, 6);
    TitlePathSpec(url);
    assert p[..6] == "/user/";
    assert p[7..] == "id";
  }

  /**
   * A slashed url is kept up to any non-word character, so a `:name` with
   * more path after it stays as it is.
   */
  lemma InteriorParamKept(url: string, k: nat)
    requires StartsWithSlash(url) && k < |url| && !IsWordChar(url[k])
    ensures |TitlePath(url)| >= k && TitlePath(url)[..k] == url[..k]
  {
    TitlePathSpec(url);
    var p := WithLeadingSlash(url);
    assert p == url;
    if i :| ParamAt(p, i) {
      assert k <= i;
      assert TitlePath(url)[..k] == p[..i][..k];
    }
  }

  /** Lower-casing the token first changes nothing: the lookup ignores case. */
  lemma GetTypeIgnoresCase(token: string)
    ensures GetType(Some(token)) == GetType(Some(Lower(token)))
  {
    LowerIdempotent(token);
  }

  // ---------------------------------------------------------------- endpoint

  /** `parseBlue`: title, parameters and responses joined by blank lines. */
  function ParseBlue(e: Endpoint): string {
    Join([ParseTitle(e), ParseParameter(e), ParseResponse(e)], "\n\n")
  }

  /** The three blocks in order, each pair separated by one blank line, even when responses are empty. */
  lemma ParseBlueLayout(e: Endpoint)
    ensures ParseBlue(e) == ParseTitle(e) + "\n\n" + ParseParameter(e) + "\n\n" + ParseResponse(e)
  {
    JoinThree(ParseTitle(e), ParseParameter(e), ParseResponse(e), "\n\n");
  }

  // ---------------------------------------------------------------- project

  /** A header or footer: `## title`, a blank line, the content; empty when absent. */
  function BlockText(b: Option<Block>): string {
    match b
    case None => ""
    case Some(block) => "## " + block.title + "\n\n" + block.content
  }

  /** `parseProject`: empty without a project, otherwise its five pieces joined by blank lines. */
  function ParseProject(project: Option<Project>): string {
    match project
    case None => ""
    case Some(p) =>
      Join(["HOST: " + p.url, "# " + p.title, p.description, BlockText(p.header), BlockText(p.footer)], "\n\n")
  }

  /**
   * Host, title, description, header, footer, in that order; an absent
   * header or footer is an empty piece, so the separators around it stay.
   */
  lemma ParseProjectLayout(project: Option<Project>)
    ensures project.None? ==> ParseProject(project) == ""
    ensures project.Some? ==>
      var p := project.value;
      ParseProject(project) == "HOST: " + p.url + "\n\n" + "# " + p.title + "\n\n" + p.description
        + "\n\n" + BlockText(p.header) + "\n\n" + BlockText(p.footer)
  {
    if project.Some? {
      var p := project.value;
      JoinFive("HOST: " + p.url, "# " + p.title, p.description, BlockText(p.header), BlockText(p.footer), "\n\n");
    }
  }

  /** A header or footer adds text only when it is present. */
  lemma BlockTextPresent(b: Option<Block>)
    ensures b.None? <==> BlockText(b) == ""
    ensures b.Some? ==> "## " <= BlockText(b)
  {
  }

  // ---------------------------------------------------------------- document

  /** The sections of the endpoints, in order. */
  function Sections(endpoints: seq<Endpoint>): (r: seq<string>)
    ensures |r| == |endpoints|
    ensures forall k {:trigger r[k]} :: 0 <= k < |endpoints| ==> r[k] == ParseBlue(endpoints[k])
  {
    seq(|endpoints|, k requires 0 <= k < |endpoints| => ParseBlue(endpoints[k]))
  }

  /** One more endpoint adds its section at the end. */
  lemma {:induction false} SectionsAppend(endpoints: seq<Endpoint>, e: Endpoint)
    ensures Sections(endpoints + [e]) == Sections(endpoints) + [ParseBlue(e)]
  {
  }

  /** The sections of a slice are the slice of the sections. */
  lemma {:induction false} SectionsSlices(endpoints: seq<Endpoint>, k: nat)
    requires k < |endpoints|
    ensures Sections(endpoints)[..k] == Sections(endpoints[..k])
    ensures Sections(endpoints)[k + 1..] == Sections(endpoints[k + 1..])
  {
  }

  /** The `reduce` of `toBlue`: each section and a blank line, added to `acc` in turn. */
  function AppendSections(acc: string, sections: seq<string>): string
    decreases |sections|
  {
    if sections == [] then acc else AppendSections(acc + sections[0] + "\n\n", sections[1..])
  }

  /** The sections one after the other, each followed by a blank line. */
  function Terminated(sections: seq<string>): string {
    if sections == [] then "" else sections[0] + "\n\n" + Terminated(sections[1..])
  }

  /** The fold adds the terminated sections to its start value. */
  lemma {:induction false} AppendSectionsConcat(acc: string, sections: seq<string>)
    ensures AppendSections(acc, sections) == acc + Terminated(sections)
    decreases |sections|
  {
    if sections != [] {
      var next := acc + sections[0] + "\n\n";
      AppendSectionsConcat(next, sections[1..]);
      assert next + Terminated(sections[1..]) == acc + (sections[0] + "\n\n" + Terminated(sections[1..]));
    }
  }

  lemma {:induction false} TerminatedAppend(sections: seq<string>, x: string)
    ensures Terminated(sections + [x]) == Terminated(sections) + x + "\n\n"
  {
    if sections != [] {
      assert (sections + [x])[1..] == sections[1..] + [x];
      TerminatedAppend(sections[1..], x);
    } else {
      assert Terminated([x]) == x + "\n\n" + Terminated([]);
    }
  }

  /** Each section stands between those before and after it. */
  lemma {:induction false} TerminatedSplit(sections: seq<string>, k: nat)
    requires k < |sections|
    ensures Terminated(sections)
         == Terminated(sections[..k]) + sections[k] + "\n\n" + Terminated(sections[k + 1..])
  {
    if k > 0 {
      TerminatedSplit(sections[1..], k - 1);
      assert sections[1..][..k - 1] == sections[1..k];
      assert sections[..k][1..] == sections[1..k];
      assert sections[1..][k..] == sections[k + 1..];
    } else {
      assert sections[..0] == [];
    }
  }

  /** `toBlue`: the format line, the preamble, a blank line, then the endpoint sections. */
  function ToBlue(project: Option<Project>, api: Option<seq<Endpoint>>): string {
    var sections := if api.Some? then AppendSections("", Sections(api.value)) else "";
    "FORMAT: 1A\n\n" + ParseProject(project) + "\n\n" + sections
  }

  /** The document is the format line, the preamble, a blank line and every section in input order. */
  lemma ToBlueLayout(project: Option<Project>, api: Option<seq<Endpoint>>)
    ensures ToBlue(project, api)
         == "FORMAT: 1A\n\n" + ParseProject(project) + "\n\n" + Terminated(Sections(api.GetOr([])))
  {
    AppendSectionsConcat("", Sections(api.GetOr([])));
  }

  /** With neither input the document is the format line and two empty pieces. */
  lemma ToBlueEmpty()
    ensures ToBlue(None, None) == "FORMAT: 1A\n\n\n\n"
    ensures ToBlue(None, Some([])) == "FORMAT: 1A\n\n\n\n"
  {
  }

  /** One more endpoint adds its section and a blank line at the end. */
  lemma ToBlueAppend(project: Option<Project>, endpoints: seq<Endpoint>, e: Endpoint)
    ensures ToBlue(project, Some(endpoints + [e])) == ToBlue(project, Some(endpoints)) + ParseBlue(e) + "\n\n"
  {
    ToBlueLayout(project, Some(endpoints + [e]));
    ToBlueLayout(project, Some(endpoints));
    SectionsAppend(endpoints, e);
    TerminatedAppend(Sections(endpoints), ParseBlue(e));
    var pre, a, x := "FORMAT: 1A\n\n" + ParseProject(project) + "\n\n", Terminated(Sections(endpoints)), ParseBlue(e);
    Regroup3(a, x, "\n\n");
    Regroup3(pre, a, x + "\n\n");
    Regroup3(pre + a, x, "\n\n");
  }

  /** The section of endpoint `k` sits after the sections of the endpoints before it. */
  lemma ToBlueOrder(project: Option<Project>, endpoints: seq<Endpoint>, k: nat)
    requires k < |endpoints|
    ensures ToBlue(project, Some(endpoints))
         == ToBlue(project, Some(endpoints[..k])) + ParseBlue(endpoints[k]) + "\n\n"
            + Terminated(Sections(endpoints[k + 1..]))
  {
    var all := Sections(endpoints);
    ToBlueLayout(project, Some(endpoints));
    ToBlueLayout(project, Some(endpoints[..k]));
    TerminatedSplit(all, k);
    SectionsSlices(endpoints, k);
    var pre, a, x, b := "FORMAT: 1A\n\n" + ParseProject(project) + "\n\n", Terminated(all[..k]), all[k], Terminated(all[k + 1..]);
    var t := x + "\n\n";
    Regroup3(a, x, "\n\n");
    Regroup3(a, t, b);
    Regroup3(pre, a, t + b);
    Regroup3(pre + a, t, b);
    Regroup3(pre + a, x, "\n\n");
  }
}
