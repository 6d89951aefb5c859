/** Vocabulary shared by the two command-line tools: C++ `unsigned int` values,
    optional flag values, the image header properties, the collaborators the tools
    call but do not implement, and the pixel component types they dispatch on. */
module ToolCommon {

  /** The values of a C++ `unsigned int`. */
  type u32 = x: int | 0 <= x < 0x1_0000_0000

  const U32_MAX: u32 := 0xFFFF_FFFF

  /** `x - 1` computed in `unsigned int` arithmetic: zero wraps to the largest value. */
  function Decrement(x: u32): (r: u32)
    ensures r == (x - 1) % 0x1_0000_0000
  {
    if x == 0 then U32_MAX else x - 1
  }

  /** A flag that may or may not have been given on the command line. */
  datatype Option<T> = None | Some(value: T) {
    /** The flag's value, or the caller's default when the flag was absent. */
    function GetOr(default: T): T {
      if Some? then value else default
    }
  }

  /** A numeric flag read twice from the same token: once as an `unsigned int`,
      once as the raw text the user typed (`-sn` in the slice tool). */
  datatype Token = Token(value: u32, text: string)

  /** What the header inspector reports about an image file. */
  datatype ImageProperties = ImageProperties(
    componentType: string,
    dimension: u32,
    numberOfComponents: u32,
    imageSize: seq<u32>)

  /** The code the tools call but whose text is not part of this model:
      the header inspector (`None` is a non-zero return) and the two path helpers
      that split a file name into its name without the last extension and that extension. */
  datatype Collaborators = Collaborators(
    inspect: string -> Option<ImageProperties>,
    stem: string -> string,
    ext: string -> string)

  /** The scalar pixel types that appear in the tools' dispatch chains. */
  datatype ComponentKind = UnsignedChar | Char | UnsignedShort | Short | Float {
    /** The spelling of the C++ type, as the dispatch macros compare it. */
    function Name(): string {
      match this
      case UnsignedChar => "unsigned char"
      case Char => "char"
      case UnsignedShort => "unsigned short"
      case Short => "short"
      case Float => "float"
    }

    predicate IsInteger() {
      !Float?
    }
  }

  /** The spelling of a type names it: no two kinds share a name, and no name holds `_`. */
  lemma NameDetermines(a: ComponentKind, b: ComponentKind)
    ensures a.Name() == b.Name() ==> a == b
    ensures '_' !in a.Name()
  {
  }

  /** Every `_` of a type tag becomes a space (so that `unsigned_char` reads `unsigned char`). */
  function ReplaceUnderscoreWithSpace(s: string): (r: string)
    ensures |r| == |s|
    ensures forall i :: 0 <= i < |s| ==> r[i] == (if s[i] == '_' then ' ' else s[i])
    ensures '_' !in r
  {
    if s == [] then []
    else [if s[0] == '_' then ' ' else s[0]] + ReplaceUnderscoreWithSpace(s[1..])
  }

  /** The table rows whose condition holds, in table order: the `run` lines of a
      dispatch chain whose `if` fires (each line is its own `if`, not an `else if`). */
  function Select<K>(table: seq<K>, matches: K -> bool): (s: seq<K>)
    ensures forall x :: x in s ==> x in table && matches(x)
    ensures forall x :: x in table && matches(x) ==> x in s
  {
    if table == [] then []
    else (if matches(table[0]) then [table[0]] else []) + Select(table[1..], matches)
  }

  /** A table none of whose rows matches selects nothing. */
  lemma {:induction false} NothingSelected<K>(table: seq<K>, matches: K -> bool)
    requires forall x :: x in table ==> !matches(x)
    ensures Select(table, matches) == []
  {
    if table != [] {
      assert table[0] in table;
      forall x | x in table[1..]
        ensures !matches(x)
      {
        assert x in table;
      }
      NothingSelected(table[1..], matches);
    }
  }

  /** When no two rows of a table can match together, at most one row is selected. */
  lemma {:induction false} ExclusiveSelectsAtMostOne<K>(table: seq<K>, matches: K -> bool)
    requires forall i, j :: 0 <= i < j < |table| && matches(table[i]) ==> !matches(table[j])
    ensures |Select(table, matches)| <= 1
  {
    if table != [] {
      var rest := table[1..];
      forall i, j | 0 <= i < j < |rest| && matches(rest[i])
        ensures !matches(rest[j])
      {
        assert rest[i] == table[i + 1] && rest[j] == table[j + 1];
      }
      ExclusiveSelectsAtMostOne(rest, matches);
      if matches(table[0]) {
        forall x | x in rest
          ensures !matches(x)
        {
          var j :| 0 <= j < |rest| && rest[j] == x;
          assert table[j + 1] == x;
        }
        NothingSelected(rest, matches);
      }
    }
  }
}
