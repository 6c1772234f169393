/** Python's own library functions, as parameters: every result of this project
    holds for all of them that meet the contracts stated with `Library`. */
module Libraries {
  import opened Text

  /** What `json.loads` and `ast.literal_eval` can produce. A mapping keeps its
      items in insertion order and has string keys; `Atom` stands for everything
      else: numbers, booleans and null, and, with `json` unset, what JSON has no form for:
      bytes, sets, complex numbers, the ellipsis. */
  datatype Value =
    | Dict(entries: seq<Entry>)
    | List(items: seq<Value>)
    | Tuple(members: seq<Value>)
    | Str(text: string)
    | Atom(literal: string, json: bool)

  datatype Entry = Entry(key: string, value: Value)

  /** The number of characters in all string leaves of a value. */
  ghost function TextSize(v: Value): nat {
    match v
    case Dict(entries) => EntriesTextSize(entries)
    case List(items) => ItemsTextSize(items)
    case Tuple(members) => ItemsTextSize(members)
    case Str(text) => |text|
    case Atom(_, _) => 0
  }

  ghost function ItemsTextSize(items: seq<Value>): nat {
    if items == [] then 0 else TextSize(items[0]) + ItemsTextSize(items[1..])
  }

  ghost function EntriesTextSize(entries: seq<Entry>): nat {
    if entries == [] then 0 else TextSize(entries[0].value) + EntriesTextSize(entries[1..])
  }

  /** Something in the value has no form in JSON. */
  ghost predicate HasForeignAtom(v: Value) {
    match v
    case Dict(entries) => exists i | 0 <= i < |entries| :: HasForeignAtom(entries[i].value)
    case List(items) => exists i | 0 <= i < |items| :: HasForeignAtom(items[i])
    case Tuple(members) => exists i | 0 <= i < |members| :: HasForeignAtom(members[i])
    case Str(_) => false
    case Atom(_, json) => !json
  }

  predicate IsLower(c: char) {
    'a' <= c <= 'z'
  }

  ghost predicate LowerCase(s: string) {
    forall i | 0 <= i < |s| :: IsLower(s[i])
  }

  /** The four characters `shlex` separates tokens at. */
  predicate IsShellSpace(c: char) {
    c == ' ' || c == '\t' || c == '\r' || c == '\n'
  }

  ghost predicate QuoteFree(s: string) {
    forall i | 0 <= i < |s| :: s[i] != '\'' && s[i] != '"' && s[i] != '\\'
  }

  /** - `casefold`: `str.casefold`
      - `shellSplit`: `shlex.split`, `None` when it raises `ValueError`
      - `parse`: `_parse_serialized`
      - `dumps`: `json.dumps` with sorted keys and compact separators, `None` when it raises
        `TypeError`
      - `sweep`: the chain of regular-expression passes of `redact_runtime_value` */
  datatype Library = Library(
    casefold: string -> string,
    shellSplit: string -> Option<seq<string>>,
    parse: string -> Option<Value>,
    dumps: Value -> Option<string>,
    sweep: string -> string)
  {
    /** Folding leaves lower-case ASCII text alone. */
    ghost predicate FoldsPlainly() {
      forall s | LowerCase(s) :: casefold(s) == s
    }

    /** Text without quotes and backslashes is split at blanks only. */
    ghost predicate SplitsPlainly() {
      forall s | QuoteFree(s) :: shellSplit(s) == Some(Split(s, IsShellSpace))
    }

    /** Serialization fails exactly on what JSON has no form for. */
    ghost predicate DumpsPlainly() {
      forall v :: dumps(v).None? <==> HasForeignAtom(v)
    }

    /** The strings of a parsed value have fewer characters than its source. */
    ghost predicate ParseShrinks() {
      forall s | parse(s).Some? :: TextSize(parse(s).value) < |s|
    }
  }
}
