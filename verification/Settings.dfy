/** `.claude/settings.json`: putting this program's hooks in somebody's file as one region of
    text, and taking exactly that region out again. What the file holds as JSON decides
    which region it gets. */
module Settings {
  import opened Wrappers
  import opened Text
  import opened Json
  import opened Scanner
  import opened Strip

  /** One indent level, and the indentation used where a file says nothing about its own. */
  const STEP := "  "
  const ONE_LEVEL := "  "
  const TWO_LEVELS := "    "

  /** One hook to install: the event it answers, what runs, and for how long at most. */
  datatype Hook = Hook(event: string, command: string, timeout: Option<nat>)

  datatype Error = NotAnObject

  /** How a region ends: with the comma before members the object already had, or with the
      newline before the closing brace of an object that had none. */
  datatype Ends = Comma | Newline

  function EndsText(ends: Ends): string {
    match ends case Comma => "," case Newline => "\n"
  }

  function EndsOf(count: nat): Ends {
    if count == 0 then Newline else Comma
  }

  // Where objects open, and how the file is indented there.

  /** The offset just after the brace that opens the top-level object. */
  function OpeningBrace(text: string): (at: Option<nat>)
    ensures at.Some? ==> 0 < at.value <= |text| && text[at.value - 1] == '{' && '{' !in text[..at.value - 1]
    ensures at.None? ==> '{' !in text
  {
    match Find(text, "{")
    case None => NoBrace(text); None
    case Some(at) => FirstBrace(text, at); Some(at + 1)
  }

  lemma NoBrace(text: string)
    requires !Contains(text, "{")
    ensures '{' !in text
  {
    forall i | 0 <= i < |text| ensures text[i] != '{' {
      assert text[i..i + 1] == [text[i]];
      assert !OccursAt(text, "{", i);
    }
  }

  lemma FirstBrace(text: string, at: nat)
    requires FirstOccursAt(text, "{", at)
    ensures at < |text| && text[at] == '{' && '{' !in text[..at]
  {
    assert text[at] == text[at..at + 1][0];
    forall i | 0 <= i < at ensures text[i] != '{' {
      assert text[i..i + 1] == [text[i]];
      assert !OccursAt(text, "{", i);
    }
  }

  /** The indentation of the line after `at`: what the file uses one level in. */
  function IndentAt(text: string, at: nat, fallback: string): (indent: string)
    requires AllSpaces(fallback)
    ensures AllSpaces(indent) && (fallback != "" ==> indent != "")
  {
    if at > |text| then fallback else
      match AfterNewline(text[at..])
      case None => fallback
      case Some(rest) =>
        var indent := LeadingSpaces(FirstLine(rest));
        if indent == "" then fallback else indent
  }

  // The region.

  /** Every line after the first, moved right by `indent`. */
  function Reindent(text: string, indent: string): string {
    if text == "" then ""
    else (if text[0] == '\n' then "\n" + indent else [text[0]]) + Reindent(text[1..], indent)
  }

  function Indented(members: seq<string>, indent: string): seq<string> {
    if members == [] then [] else [indent + Reindent(members[0], indent)] + Indented(members[1..], indent)
  }

  /** The region as members of an object that already exists. */
  function Inside(members: seq<string>, indent: string, ends: Ends): string {
    "\n" + Join(Indented(members, indent), ",\n") + EndsText(ends)
  }

  /** The region as the whole container member, for a file that has none. */
  function Whole(container: string, members: seq<string>, indent: string, ends: Ends): string {
    "\n" + indent + "\"" + container + "\": {\n"
    + Join(Indented(members, indent + STEP), ",\n") + "\n" + indent + "}" + EndsText(ends)
  }

  /** One group holding one command; a map prints its keys in order. */
  function GroupOf(hook: Hook): Value {
    var timeout := match hook.timeout case None => [] case Some(n) => [Entry("timeout", Number(Decimal(n)))];
    Object([Entry(HOOKS, Array([Object(
      [Entry(COMMAND, Text(hook.command))] + timeout + [Entry("type", Text(COMMAND))])]))])
  }

  /** One event's member: its name, and the one group installed for it. */
  function MemberText(hook: Hook): string {
    "\"" + hook.event + "\": " + Pretty(Array([GroupOf(hook)]), 0)
  }

  function MembersText(hooks: seq<Hook>): seq<string> {
    if hooks == [] then [] else [MemberText(hooks[0])] + MembersText(hooks[1..])
  }

  // Writing it, and finding it again.

  /** `text` with the region spliced in: into the container the file has, or into its
      top-level object, or into `{}` where there is no file yet. */
  function Splice(text: string, document: Map, container: string, members: seq<string>): string {
    var before := if Blank(text) then "{" else text;
    var after := if Blank(text) then "}\n" else "";
    match Opening(before, container)
    case Some(at) =>
      var count := match Get(document, container) case Some(Object(held)) => |held| case _ => 0;
      InsertAt(before, at, Inside(members, IndentAt(before, at, TWO_LEVELS), EndsOf(count))) + after
    case None =>
      var at := OpeningBrace(before).GetOr(|before|);
      InsertAt(before, at, Whole(container, members, IndentAt(before, at, ONE_LEVEL), EndsOf(|document|))) + after
  }

  function InsertAt(text: string, at: nat, region: string): string
    requires at <= |text|
  {
    text[..at] + region + text[at..]
  }

  /** Every region that could have been written into `text`, widest first. */
  function Candidates(text: string, container: string, members: seq<string>): seq<string> {
    (match OpeningBrace(text)
     case None => []
     case Some(at) =>
       var indent := IndentAt(text, at, ONE_LEVEL);
       [Whole(container, members, indent, Comma), Whole(container, members, indent, Newline)])
    + (match Opening(text, container)
       case None => []
       case Some(at) =>
         var indent := IndentAt(text, at, TWO_LEVELS);
         [Inside(members, indent, Comma), Inside(members, indent, Newline)])
  }

  /** The first of the regions that stands in `text`. */
  function FirstHeld(text: string, regions: seq<string>): Option<string> {
    if regions == [] then None
    else if Find(text, regions[0]).Some? then Some(regions[0])
    else FirstHeld(text, regions[1..])
  }

  /** `text` with a region this program wrote taken out. */
  function Cut(text: string, container: string, members: seq<string>): Option<string> {
    match FirstHeld(text, Candidates(text, container, members))
    case None => None
    case Some(region) => Some(RemoveFirst(text, region))
  }

  ghost predicate HoldsHooks(text: string) {
    Parse(text).Some? && HoldsMarker(Parse(text).value)
  }

  function Render(document: Map): string {
    Pretty(Object(document), 0) + "\n"
  }

  /** `text` with everything this program added taken out, or `None` when it added nothing:
      byte for byte where the region is there, and written anew where it is not. */
  ghost function Remove(text: string, hooks: seq<Hook>): Option<string> {
    match Cut(text, HOOKS, MembersText(hooks))
    case Some(exact) => Some(exact)
    case None => if HoldsHooks(text) then Some(Render(Stripped(Parse(text).value))) else None
  }

  /** `text` with `hooks` installed, or nothing when it already reads exactly that way. */
  ghost function Add(text: string, hooks: seq<Hook>): Result<Option<string>, Error> {
    var bare := Remove(text, hooks).GetOr(text);
    match Parse(bare)
    case None => Failure(NotAnObject)
    case Some(document) =>
      var installed := Splice(bare, document, HOOKS, MembersText(hooks));
      Success(if installed == text then None else Some(installed))
  }
}
