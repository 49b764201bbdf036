/**
 * The name configuration: each category holds `{ mappings: [deadname,
 * chosen name] }` entries, and the settings object that carries it.
 */
module Names {
  import opened Wrappers

  /** One `{ mappings: [dead, chosen] }` entry. */
  datatype NameEntry = NameEntry(dead: string, chosen: string)

  /** The `Names` object with its three categories. */
  datatype Names = Names(first: seq<NameEntry>, middle: seq<NameEntry>, last: seq<NameEntry>)

  datatype Category = First | Middle | Last

  /** `['first', 'middle', 'last']`, the order of the migration loops and of `Object.values`. */
  const Categories: seq<Category> := [First, Middle, Last]

  /** The position of a category in `Categories`. */
  function Pos(c: Category): (r: nat)
    ensures r < |Categories| && Categories[r] == c
  {
    match c
    case First => 0
    case Middle => 1
    case Last => 2
  }

  function Get(n: Names, c: Category): seq<NameEntry>
  {
    match c
    case First => n.first
    case Middle => n.middle
    case Last => n.last
  }

  function With(n: Names, c: Category, s: seq<NameEntry>): (r: Names)
    ensures Get(r, c) == s
    ensures forall d :: d != c ==> Get(r, d) == Get(n, d)
  {
    match c
    case First => n.(first := s)
    case Middle => n.(middle := s)
    case Last => n.(last := s)
  }

  /** `Object.values(names).flat()`: the categories in order, each in list order. */
  function Flat(n: Names): seq<NameEntry>
  {
    n.first + n.middle + n.last
  }

  /** Both strings of every entry are non-empty, as the settings schema's trimmed non-empty strings guarantee. */
  predicate NonEmptyEntries(s: seq<NameEntry>)
  {
    forall k :: 0 <= k < |s| ==> s[k].dead != "" && s[k].chosen != ""
  }

  /** The keyboard shortcut stored in the settings. */
  datatype Keybinding = Keybinding(key: string, ctrl: bool, alt: bool, shift: bool, meta: bool)

  /**
   * The mutable `names` object. The settings object holds a reference to
   * it, so a shallow copy of the settings shares it.
   */
  class NamesObject {
    var first: seq<NameEntry>
    var middle: seq<NameEntry>
    var last: seq<NameEntry>

    constructor (n: Names)
      ensures Value() == n
    {
      first := n.first;
      middle := n.middle;
      last := n.last;
    }

    function Value(): Names
      reads this
    {
      Names(first, middle, last)
    }

    /** `names[type] = s` */
    method Set(c: Category, s: seq<NameEntry>)
      modifies this
      ensures Value() == With(old(Value()), c, s)
    {
      match c
      case First => first := s;
      case Middle => middle := s;
      case Last => last := s;
    }
  }

  /** The fields of `UserSettings`, in the order of `defaultSettings`. */
  datatype Settings = Settings(
    names: NamesObject,
    enabled: bool,
    blockContentBeforeDone: bool,
    stealthMode: bool,
    hideDebugInfo: bool,
    highlightReplacedNames: bool,
    syncSettingsAcrossDevices: bool,
    theme: string,
    toggleKeybinding: Option<Keybinding>)
}
