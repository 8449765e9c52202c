/** JSON as the settings file holds it: values, the two-space printing this program writes
    them in, and the layouts a person's own file may have, with any whitespace where JSON
    allows it. */
module Json {
  import opened Wrappers
  import opened Text
  import opened Lexicographic

  /** A JSON value. An object's members stand in key order, each key once. */
  datatype Value =
    | Null
    | Bool(b: bool)
    | Number(token: string)
    | Text(s: string)
    | Array(items: seq<Value>)
    | Object(members: Map)

  datatype Entry = Entry(key: string, value: Value)

  type Map = seq<Entry>

  function Get(m: Map, key: string): Option<Value> {
    if m == [] then None else if m[0].key == key then Some(m[0].value) else Get(m[1..], key)
  }

  function Keys(m: Map): seq<string> {
    seq(|m|, i requires 0 <= i < |m| => m[i].key)
  }

  // Two-space printing.

  function Hex(n: nat): char
    requires n < 16
  {
    if n < 10 then '0' + n as char else 'a' + (n - 10) as char
  }

  /** One character of a string as the printer writes it. */
  function EscapeChar(c: char): (r: string)
    ensures r != "" && '\n' !in r
  {
    if c == '"' then "\\\""
    else if c == '\\' then "\\\\"
    else if c == 8 as char then "\\b"
    else if c == '\t' then "\\t"
    else if c == '\n' then "\\n"
    else if c == 12 as char then "\\f"
    else if c == '\r' then "\\r"
    else if c < ' ' then "\\u00" + [Hex(c as int / 16), Hex(c as int % 16)]
    else [c]
  }

  function Escape(s: string): (r: string)
    ensures '\n' !in r
  {
    if s == "" then "" else EscapeChar(s[0]) + Escape(s[1..])
  }

  function Quote(s: string): string {
    "\"" + Escape(s) + "\""
  }

  function Pad(depth: nat): (r: string)
    ensures AllSpaces(r) && |r| == 2 * depth
  {
    if depth == 0 then "" else "  " + Pad(depth - 1)
  }

  /** A value over several lines, two spaces to a level; `depth` levels are open. */
  function Pretty(v: Value, depth: nat): string
    decreases v
  {
    match v
    case Null => "null"
    case Bool(b) => if b then "true" else "false"
    case Number(token) => token
    case Text(s) => Quote(s)
    case Array(items) =>
      if items == [] then "[]" else "[" + PrettyItems(items, depth + 1) + "\n" + Pad(depth) + "]"
    case Object(members) =>
      if members == [] then "{}" else "{" + PrettyMembers(members, depth + 1) + "\n" + Pad(depth) + "}"
  }

  function PrettyItems(items: seq<Value>, depth: nat): string
    decreases items
  {
    if items == [] then "" else
      "\n" + Pad(depth) + Pretty(items[0], depth)
      + (if |items| == 1 then "" else ",") + PrettyItems(items[1..], depth)
  }

  function PrettyMembers(members: Map, depth: nat): string
    decreases members
  {
    if members == [] then "" else
      "\n" + Pad(depth) + PrettyMember(members[0], depth)
      + (if |members| == 1 then "" else ",") + PrettyMembers(members[1..], depth)
  }

  function PrettyMember(e: Entry, depth: nat): string
    decreases e
  {
    Quote(e.key) + ": " + Pretty(e.value, depth)
  }

  // Layouts.

  /** A value as somebody laid it out: the same structure, with the whitespace and the
      spelling of every string as they stand in the file. */
  datatype Laid =
    | Scalar(token: string)
    | Quoted(raw: string)
    | Listed(items: seq<Item>, blank: string)
    | Table(members: seq<Member>, blank: string)

  datatype Item = Item(before: string, value: Laid, after: string)

  datatype Member = Member(before: string, key: string, afterKey: string, beforeValue: string, value: Laid, after: string)

  function Show(v: Laid): string
    decreases v
  {
    match v
    case Scalar(token) => token
    case Quoted(raw) => "\"" + raw + "\""
    case Listed(items, blank) => "[" + ShowItems(items) + blank + "]"
    case Table(members, blank) => "{" + ShowMembers(members) + blank + "}"
  }

  function ShowItems(items: seq<Item>): string
    decreases items
  {
    if items == [] then ""
    else if |items| == 1 then ShowItem(items[0])
    else ShowItem(items[0]) + "," + ShowItems(items[1..])
  }

  function ShowItem(item: Item): string
    decreases item
  {
    item.before + Show(item.value) + item.after
  }

  function ShowMembers(members: seq<Member>): string
    decreases members
  {
    if members == [] then ""
    else if |members| == 1 then ShowMember(members[0])
    else ShowMember(members[0]) + "," + ShowMembers(members[1..])
  }

  function ShowMember(m: Member): string
    decreases m
  {
    ShowKey(m) + Show(m.value) + m.after
  }

  /** What stands in front of a member's value. */
  function ShowKey(m: Member): string {
    m.before + "\"" + m.key + "\"" + m.afterKey + ":" + m.beforeValue
  }

  predicate JsonBlank(s: string) {
    forall i :: 0 <= i < |s| ==> s[i] in " \t\n\r"
  }

  /** What may stand between the quotes of a string: escapes in pairs, no bare quote, no
      control character. */
  predicate RawString(s: string) {
    s == "" ||
    (if s[0] == '\\' then |s| >= 2 && s[1] >= ' ' && RawString(s[2..])
     else s[0] != '"' && s[0] >= ' ' && RawString(s[1..]))
  }

  predicate Digits(s: string) {
    s != "" && forall i :: 0 <= i < |s| ==> '0' <= s[i] <= '9'
  }

  ghost predicate IsNumber(s: string) {
    exists sign, whole, fraction, exponent ::
      && s == sign + whole + fraction + exponent
      && sign in {"", "-"}
      && Digits(whole) && (|whole| > 1 ==> whole[0] != '0')
      && (fraction == "" || (fraction[0] == '.' && Digits(fraction[1..])))
      && IsExponent(exponent)
  }

  ghost predicate IsExponent(s: string) {
    s == "" || (s[0] in "eE" && |s| > 1 && (Digits(s[1..]) || (s[1] in "+-" && Digits(s[2..]))))
  }

  /** Whether a layout follows the JSON grammar. */
  ghost predicate Valid(v: Laid)
    decreases v
  {
    match v
    case Scalar(token) => token in {"true", "false", "null"} || IsNumber(token)
    case Quoted(raw) => RawString(raw) && Unescape(raw).Some?
    case Listed(items, blank) =>
      JsonBlank(blank) && (items != [] ==> blank == "") && forall i :: 0 <= i < |items| ==> ValidItem(items[i])
    case Table(members, blank) =>
      JsonBlank(blank) && (members != [] ==> blank == "") && forall i :: 0 <= i < |members| ==> ValidMember(members[i])
  }

  ghost predicate ValidItem(item: Item)
    decreases item
  {
    JsonBlank(item.before) && JsonBlank(item.after) && Valid(item.value)
  }

  ghost predicate ValidMember(m: Member)
    decreases m
  {
    && JsonBlank(m.before) && JsonBlank(m.afterKey) && JsonBlank(m.beforeValue) && JsonBlank(m.after)
    && RawString(m.key) && Unescape(m.key).Some?
    && Valid(m.value)
  }

  // What a layout means.

  function HexValue(c: char): Option<nat> {
    if '0' <= c <= '9' then Some(c as int - '0' as int)
    else if 'a' <= c <= 'f' then Some(c as int - 'a' as int + 10)
    else if 'A' <= c <= 'F' then Some(c as int - 'A' as int + 10)
    else None
  }

  function FourHex(s: string): (n: Option<nat>)
    ensures n.Some? ==> n.value < 0x1_0000
  {
    if |s| < 4 then None else
      match (HexValue(s[0]), HexValue(s[1]), HexValue(s[2]), HexValue(s[3]))
      case (Some(a), Some(b), Some(c), Some(d)) =>
        if a < 16 && b < 16 && c < 16 && d < 16 then Some(a * 4096 + b * 256 + c * 16 + d) else None
      case _ => None
  }

  /** The text a string spells, `None` where an escape is none JSON has. */
  function Unescape(raw: string): Option<string>
    decreases |raw|
  {
    if raw == "" then Some("")
    else if raw[0] != '\\' then Before([raw[0]], Unescape(raw[1..]))
    else if |raw| < 2 then None
    else if raw[1] == 'u' then
      match FourHex(raw[2..])
      case None => None
      case Some(n) =>
        if 0xD800 <= n < 0xDC00 then
          if |raw| >= 12 && raw[6] == '\\' && raw[7] == 'u' && FourHex(raw[8..]).Some? && 0xDC00 <= FourHex(raw[8..]).value < 0xE000
          then Before([(0x1_0000 + (n - 0xD800) * 0x400 + (FourHex(raw[8..]).value - 0xDC00)) as char], Unescape(raw[12..]))
          else None
        else if 0xDC00 <= n < 0xE000 || |raw| < 6 then None
        else Before([n as char], Unescape(raw[6..]))
    else
      match raw[1]
      case '"' => Before("\"", Unescape(raw[2..]))
      case '\\' => Before("\\", Unescape(raw[2..]))
      case '/' => Before("/", Unescape(raw[2..]))
      case 'b' => Before([8 as char], Unescape(raw[2..]))
      case 'f' => Before([12 as char], Unescape(raw[2..]))
      case 'n' => Before("\n", Unescape(raw[2..]))
      case 'r' => Before("\r", Unescape(raw[2..]))
      case 't' => Before("\t", Unescape(raw[2..]))
      case _ => None
  }

  function Before(head: string, rest: Option<string>): Option<string> {
    match rest case None => None case Some(s) => Some(head + s)
  }

  /** A map with one member put in, in key order: a key already there takes the later
      value. */
  function Put(m: Map, key: string, v: Value): Map {
    if m == [] then [Entry(key, v)]
    else if m[0].key == key then [Entry(key, v)] + m[1..]
    else if TEXT_ORDER(m[0].key, key) then [m[0]] + Put(m[1..], key, v)
    else [Entry(key, v)] + m
  }

  /** The value a layout stands for. */
  function Meaning(v: Laid): Value
    decreases v
  {
    match v
    case Scalar(token) =>
      if token == "null" then Null
      else if token == "true" then Bool(true)
      else if token == "false" then Bool(false)
      else Number(token)
    case Quoted(raw) => Text(Unescape(raw).GetOr(""))
    case Listed(items, _) => Array(MeaningOfItems(items))
    case Table(members, _) => Object(MeaningOfMembers(members))
  }

  function MeaningOfItems(items: seq<Item>): seq<Value>
    decreases items
  {
    if items == [] then [] else [MeaningOfItem(items[0])] + MeaningOfItems(items[1..])
  }

  function MeaningOfItem(item: Item): Value
    decreases item
  {
    Meaning(item.value)
  }

  function MeaningOfMembers(members: seq<Member>): Map
    decreases members
  {
    if members == [] then [] else
      var last := members[|members| - 1];
      Put(MeaningOfMembers(members[..|members| - 1]), Unescape(last.key).GetOr(""), MeaningOfMember(last))
  }

  function MeaningOfMember(m: Member): Value
    decreases m
  {
    Meaning(m.value)
  }

  // Files.

  /** A file that holds one JSON object, as it is laid out. */
  datatype File = File(lead: string, members: seq<Member>, blank: string, trail: string)

  function ShowFile(f: File): string {
    f.lead + Show(Table(f.members, f.blank)) + f.trail
  }

  ghost predicate ValidFile(f: File) {
    JsonBlank(f.lead) && JsonBlank(f.trail) && Valid(Table(f.members, f.blank))
  }

  /** Some layout of an object reads as this text. */
  ghost predicate IsObject(text: string) {
    exists f :: ValidFile(f) && ShowFile(f) == text
  }

  ghost function LayoutOf(text: string): (f: File)
    requires IsObject(text)
    ensures ValidFile(f) && ShowFile(f) == text
  {
    var f :| ValidFile(f) && ShowFile(f) == text;
    f
  }

  /** The file as an object: one that is not there, or only whitespace, is empty. */
  ghost function Parse(text: string): Option<Map> {
    if Blank(text) then Some([])
    else if IsObject(text) then Some(MeaningOfMembers(LayoutOf(text).members))
    else None
  }
}
