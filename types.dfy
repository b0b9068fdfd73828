/** The values FlashMessage works with: queued messages, the session
    namespace, presentation settings, call arguments and outcomes, and the two
    ways a caller's type string becomes a bucket key. */
module FlashTypes {
  import opened Text

  datatype Option<+T> = None | Some(value: T)

  /** One queued notice, stored as `['sticky' => ..., 'message' => ...]`. */
  datatype Msg = Msg(sticky: bool, message: string)

  /** The `flash_messages` session namespace: type key to FIFO bucket. */
  type Buckets = map<char, seq<Msg>>

  const Info: char := 'i'
  const Success: char := 's'
  const Warning: char := 'w'
  const Error: char := 'e'
  const DefaultType: char := Info

  /** The keys of `msg_types`, in the order a full display prints them. */
  const TypeOrder: seq<char> := [Error, Warning, Success, Info]

  predicate IsTypeKey(c: char) {
    c == Error || c == Warning || c == Success || c == Info
  }

  /** The namespace holds buckets of the four types only. */
  ghost predicate WellKeyed(ns: Option<Buckets>) {
    ns.Some? ==> forall k :: k in ns.value ==> IsTypeKey(k)
  }

  /** The two-slot `sprintf` wrapper: prefix, class slot, middle, body slot, suffix. */
  datatype Template = Template(prefix: string, middle: string, suffix: string)

  /** The presentation settings `format_message` reads. */
  datatype Style = Style(
    wrapper: Template,
    before: string,
    after: string,
    closeBtn: string,
    stickyClass: string,
    msgClass: string,
    classMap: map<string, string>)

  /** The settings a freshly constructed instance starts with. */
  const DefaultStyle: Style := Style(
    Template("<div class='", "'>", "</div>\n"),
    "", "", "", "sticky", "alert dismissable",
    map["i" := "alert-info", "s" := "alert-success", "w" := "alert-warning", "e" := "alert-danger"])

  /** Every type key has a CSS class, so the class lookup never misses. */
  predicate StyleValid(s: Style) {
    "e" in s.classMap && "w" in s.classMap && "s" in s.classMap && "i" in s.classMap
  }

  /** The default class map has a class for each of the four types and for
      nothing else, so the default settings are valid. */
  lemma DefaultStyleValid()
    ensures StyleValid(DefaultStyle)
    ensures DefaultStyle.classMap.Keys == {"e", "w", "s", "i"}
  {
  }

  /** PHP truthiness of a string: only "" and "0" are falsy. */
  predicate IsFalsy(s: string) {
    s == "" || s == "0"
  }

  /** The `$types` argument of `display` and `clear`: null, an array of type
      names, or a single type name. */
  datatype Selector = AllTypes | TypeList(types: seq<string>) | OneType(name: string)

  /** The first argument of `set_css_class_map`: one type with an optional
      class (null makes the call a no-op), or an array of type/class pairs. */
  datatype ClassMapArg = OneClass(msgType: string, cssClass: Option<string>) | ClassPairs(pairs: seq<(string, string)>)

  /** What `do_redirect` does: send a Location header and exit, or `wp_die`. */
  datatype Halt = Redirect(url: string) | Die

  /** What `add` does: return false, or end the request through `do_redirect`. */
  datatype AddOutcome = Rejected | Halted(halt: Halt)

  /** Type normalisation in `add`: a type whose trimmed length is over one
      becomes its first character lower-cased; a result that is not one of
      the four keys becomes the default type. A single character is not
      lower-cased. */
  function AddKey(msgType: string): (k: char)
    ensures IsTypeKey(k)
    ensures |Trim(msgType)| > 1 && IsTypeKey(Lower(msgType[0])) ==> k == Lower(msgType[0])
    ensures |Trim(msgType)| <= 1 && |msgType| == 1 && IsTypeKey(msgType[0]) ==> k == msgType[0]
    ensures k != DefaultType ==>
      if |Trim(msgType)| > 1 then k == Lower(msgType[0]) else msgType == [k]
  {
    var candidate := if |Trim(msgType)| > 1 then [Lower(msgType[0])] else msgType;
    if |candidate| == 1 && IsTypeKey(candidate[0]) then candidate[0] else DefaultType
  }

  /** The key `display` visits for one array element: its first character
      lower-cased; an empty string names no bucket. */
  function Initial(name: string): (v: seq<char>)
    ensures |v| <= 1
    ensures v == [] <==> name == ""
  {
    if name == "" then [] else [Lower(name[0])]
  }

  /** The keys visited for an array of type names, in the array's order. */
  function Initials(names: seq<string>): (v: seq<char>)
    ensures |v| <= |names|
    ensures (forall i :: 0 <= i < |names| ==> names[i] != "") ==>
      |v| == |names| && forall i :: 0 <= i < |v| ==> v[i] == Lower(names[i][0])
  {
    if names == [] then []
    else Initials(names[..|names| - 1]) + Initial(names[|names| - 1])
  }

  /** Resolving one more element of the array. */
  lemma InitialsStep(names: seq<string>, i: nat)
    requires i < |names|
    ensures Initials(names[..i + 1]) == Initials(names[..i]) + Initial(names[i])
  {
    assert names[..i + 1][..i] == names[..i];
  }

  /** Type selection in `display`: all types in the canonical order for a
      null, falsy or empty argument, the given order for an array, and exactly
      one key for a single name. Keys are lower-cased but never defaulted. */
  function VisitOrder(sel: Selector): (v: seq<char>)
    ensures sel.AllTypes? || sel == TypeList([]) || (sel.OneType? && IsFalsy(sel.name)) ==> v == TypeOrder
    ensures sel.OneType? && !IsFalsy(sel.name) ==> v == [Lower(sel.name[0])]
    ensures sel.TypeList? && sel.types != [] ==> v == Initials(sel.types)
  {
    match sel
    case AllTypes => TypeOrder
    case TypeList(names) => if names == [] then TypeOrder else Initials(names)
    case OneType(name) => if IsFalsy(name) then TypeOrder else [Lower(name[0])]
  }

  /** The bucket a raw (unnormalised) type name addresses, if any. */
  function KeyOf(name: string): (k: Option<char>)
    ensures k.Some? <==> |name| == 1
    ensures k.Some? ==> name == [k.value]
  {
    if |name| == 1 then Some(name[0]) else None
  }

  /** The buckets `clear` unsets for an array of raw type names. */
  function KeysNamed(names: seq<string>): (ks: set<char>)
    ensures forall c :: c in ks <==> [c] in names
  {
    if names == [] then {}
    else
      var last := names[|names| - 1];
      assert names == names[..|names| - 1] + [last];
      assert |last| == 1 ==> last == [last[0]];
      KeysNamed(names[..|names| - 1]) + (if |last| == 1 then {last[0]} else {})
  }
}
