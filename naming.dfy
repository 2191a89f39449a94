/** Class names derived from snake_case keys: split on '_', capitalize every
    component (first character upper-case, the rest lower-case), concatenate. */
module Naming {

  /** ASCII case mapping; every other character is left as it is. */
  function Upper(c: char): char {
    if 'a' <= c <= 'z' then (c as int - 32) as char else c
  }

  function Lower(c: char): char {
    if 'A' <= c <= 'Z' then (c as int + 32) as char else c
  }

  function LowerAll(s: string): (r: string)
    ensures |r| == |s|
  {
    if s == [] then [] else [Lower(s[0])] + LowerAll(s[1..])
  }

  /** Python's str.capitalize on ASCII text. */
  function Capitalize(w: string): (r: string)
    ensures |r| == |w|
  {
    if w == [] then [] else [Upper(w[0])] + LowerAll(w[1..])
  }

  /** Number of occurrences of c in s. */
  function Count(s: string, c: char): nat {
    if s == [] then 0 else (if s[0] == c then 1 else 0) + Count(s[1..], c)
  }

  /** Python's s.split('_'): the maximal '_'-free pieces between separators,
      empty pieces included. */
  function Split(s: string): (parts: seq<string>)
    ensures |parts| >= 1
  {
    if s == [] then [""]
    else
      var rest := Split(s[1..]);
      if s[0] == '_' then [""] + rest else [[s[0]] + rest[0]] + rest[1..]
  }

  /** '_'.join(parts). */
  function JoinUnderscore(parts: seq<string>): string
    requires |parts| >= 1
  {
    if |parts| == 1 then parts[0] else parts[0] + "_" + JoinUnderscore(parts[1..])
  }

  /** ''.join(x.capitalize() for x in parts). */
  function ConcatCapitalized(parts: seq<string>): string {
    if parts == [] then "" else Capitalize(parts[0]) + ConcatCapitalized(parts[1..])
  }

  /** convert_to_camel_case. */
  function CamelCase(s: string): string {
    ConcatCapitalized(Split(s))
  }

  /** A character-by-character reading of the same transformation: underscores
      are dropped, a character that starts the string or follows an underscore
      is upper-cased and every other character is lower-cased. `atStart` says
      whether the next character starts a component. */
  function CamelFrom(s: string, atStart: bool): string {
    if s == [] then []
    else if s[0] == '_' then CamelFrom(s[1..], true)
    else [if atStart then Upper(s[0]) else Lower(s[0])] + CamelFrom(s[1..], false)
  }

  /** The pieces of Split contain no separator, there is one more piece than
      there are separators, and joining them back with '_' gives the input. */
  lemma {:induction false} SplitPieces(s: string)
    ensures forall i :: 0 <= i < |Split(s)| ==> '_' !in Split(s)[i]
    ensures |Split(s)| == Count(s, '_') + 1
    ensures JoinUnderscore(Split(s)) == s
  {
    if s != [] {
      var rest := Split(s[1..]);
      SplitPieces(s[1..]);
      if s[0] == '_' {
        assert Split(s) == [""] + rest;
        assert Split(s)[1..] == rest;
      } else {
        var parts := Split(s);
        assert parts == [[s[0]] + rest[0]] + rest[1..];
        assert parts[1..] == rest[1..];
        forall i | 0 <= i < |parts| ensures '_' !in parts[i] {
          if i > 0 { assert parts[i] == rest[i]; }
        }
        if |rest| > 1 {
          assert JoinUnderscore(rest) == rest[0] + "_" + JoinUnderscore(rest[1..]);
          assert s == [s[0]] + s[1..];
        }
      }
    }
  }

  /** The component-wise definition and the character-wise one agree, once the
      first component is treated according to `atStart`. */
  lemma {:induction false} CamelFromSplit(s: string, atStart: bool)
    ensures CamelFrom(s, atStart)
         == (if atStart then Capitalize(Split(s)[0]) else LowerAll(Split(s)[0]))
            + ConcatCapitalized(Split(s)[1..])
  {
    if s != [] {
      var rest := Split(s[1..]);
      if s[0] == '_' {
        CamelFromSplit(s[1..], true);
        assert Split(s) == [""] + rest;
        assert Split(s)[1..] == rest;
        assert ConcatCapitalized(rest) == Capitalize(rest[0]) + ConcatCapitalized(rest[1..]);
      } else {
        CamelFromSplit(s[1..], false);
        assert Split(s) == [[s[0]] + rest[0]] + rest[1..];
        var w := [s[0]] + rest[0];
        assert w[1..] == rest[0];
      }
    }
  }

  /** convert_to_camel_case equals the character-wise reading. */
  lemma CamelCaseCharwise(s: string)
    ensures CamelCase(s) == CamelFrom(s, true)
  {
    CamelFromSplit(s, true);
    var parts := Split(s);
    assert ConcatCapitalized(parts) == Capitalize(parts[0]) + ConcatCapitalized(parts[1..]);
  }

  lemma {:induction false} CamelFromShape(s: string, atStart: bool)
    ensures '_' !in CamelFrom(s, atStart)
    ensures |CamelFrom(s, atStart)| == |s| - Count(s, '_')
  {
    if s != [] {
      CamelFromShape(s[1..], true);
      CamelFromShape(s[1..], false);
    }
  }

  /** A derived class name holds no underscore, and it is exactly as long as the
      key without its underscores. */
  lemma CamelCaseShape(s: string)
    ensures '_' !in CamelCase(s)
    ensures |CamelCase(s)| == |s| - Count(s, '_')
  {
    CamelCaseCharwise(s);
    CamelFromShape(s, true);
  }

  /** A key that does not start with `_` gives a non-empty class name. */
  lemma CamelCaseNonEmpty(s: string)
    requires s != [] && s[0] != '_'
    ensures CamelCase(s) != ""
  {
    CamelCaseCharwise(s);
  }

  /** A list of mappings under `items` names the class `Items`, not `Item`. */
  lemma CamelCaseItems()
    ensures CamelCase("items") == "Items"
  {
    CamelCaseCharwise("items");
    assert CamelFrom("s", false) == "s" by { assert "s"[1..] == []; }
    assert CamelFrom("ms", false) == "ms" by { assert "ms"[1..] == "s"; }
    assert CamelFrom("ems", false) == "ems" by { assert "ems"[1..] == "ms"; }
    assert CamelFrom("tems", false) == "tems" by { assert "tems"[1..] == "ems"; }
    assert CamelFrom("items", true) == "Items" by { assert "items"[1..] == "tems"; }
  }

  /** The fallback element name is its own class name. */
  lemma CamelCaseItem()
    ensures CamelCase("Item") == "Item"
  {
    CamelCaseCharwise("Item");
    assert CamelFrom("m", false) == "m" by { assert "m"[1..] == []; }
    assert CamelFrom("em", false) == "em" by { assert "em"[1..] == "m"; }
    assert CamelFrom("tem", false) == "tem" by { assert "tem"[1..] == "em"; }
    assert CamelFrom("Item", true) == "Item" by { assert "Item"[1..] == "tem"; }
  }

  /** Capitals inside a component are lowered: `dbConfig` names `Dbconfig`. */
  lemma CamelCaseLowersInnerCapitals()
    ensures CamelCase("dbConfig") == "Dbconfig"
  {
    CamelCaseCharwise("dbConfig");
    CamelFromConfig();
    assert CamelFrom("bConfig", false) == "bconfig" by { assert "bConfig"[1..] == "Config"; }
    assert CamelFrom("dbConfig", true) == "Dbconfig" by { assert "dbConfig"[1..] == "bConfig"; }
  }

  lemma CamelFromConfig()
    ensures CamelFrom("Config", false) == "config"
  {
    assert CamelFrom("g", false) == "g" by { assert "g"[1..] == []; }
    assert CamelFrom("ig", false) == "ig" by { assert "ig"[1..] == "g"; }
    assert CamelFrom("fig", false) == "fig" by { assert "fig"[1..] == "ig"; }
    assert CamelFrom("nfig", false) == "nfig" by { assert "nfig"[1..] == "fig"; }
    assert CamelFrom("onfig", false) == "onfig" by { assert "onfig"[1..] == "nfig"; }
    assert CamelFrom("Config", false) == "config" by { assert "Config"[1..] == "onfig"; }
  }

  /** Each component is capitalized: `db_url` names `DbUrl`. */
  lemma CamelCaseSnake()
    ensures CamelCase("db_url") == "DbUrl"
  {
    CamelCaseCharwise("db_url");
    assert CamelFrom("url", true) == "Url" by {
      assert CamelFrom("l", false) == "l" by { assert "l"[1..] == []; }
      assert CamelFrom("rl", false) == "rl" by { assert "rl"[1..] == "l"; }
      assert "url"[1..] == "rl";
    }
    assert CamelFrom("_url", false) == "Url" by { assert "_url"[1..] == "url"; }
    assert CamelFrom("b_url", false) == "bUrl" by { assert "b_url"[1..] == "_url"; }
    assert CamelFrom("db_url", true) == "DbUrl" by { assert "db_url"[1..] == "b_url"; }
  }
}
