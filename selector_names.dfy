/**
  Which symbols name Objective-C selectors, and the display name the plugin
  derives from such a symbol: drop the four-character `sel_` prefix, strip
  one trailing `[0x<lower-case hex>]` suffix, which the plugin treats as a
  possible length specifier, and put `_objc_sendMsg$` in front.
*/
module SelectorNames {

  const SelectorPrefix: string := "sel_"
  const SendMsgPrefix: string := "_objc_sendMsg$"

  /** `is_selector_string`: a symbol sits at the string's start and its name starts with `sel_` (case-sensitive). */
  predicate IsSelectorString(symbols: map<int, string>, start: int)
  {
    start in symbols && SelectorPrefix <= symbols[start]
  }

  /**
    A string is a selector string exactly when a symbol sits at its start and
    the symbol's first four characters are `sel_`; the test is case-sensitive
    and a missing symbol fails it.
  */
  lemma SelectorStringMeaning(symbols: map<int, string>, start: int)
    ensures IsSelectorString(symbols, start) <==>
              start in symbols && |symbols[start]| >= 4 && symbols[start][..4] == "sel_"
    ensures !IsSelectorString(map[start := "SEL_init"], start)
    ensures !IsSelectorString(map[], start)
  {
    if start in symbols && |symbols[start]| >= 4 && symbols[start][..4] == "sel_" {
      assert SelectorPrefix == symbols[start][..4];
    }
    assert "SEL_init"[0] != SelectorPrefix[0];
  }

  /** A character of the regular-expression class `[0-9a-f]`. */
  predicate IsLowerHexDigit(c: char)
  {
    '0' <= c <= '9' || 'a' <= c <= 'f'
  }

  /** `t` is entirely `[0x`, one or more lower-case hex digits, and `]`. */
  predicate IsHexSuffix(t: string)
  {
    && |t| >= 5
    && t[..3] == "[0x"
    && t[|t| - 1] == ']'
    && forall i :: 3 <= i < |t| - 1 ==> IsLowerHexDigit(t[i])
  }

  /** The start of the longest run of hex digits that ends at `e`. */
  function HexRunStart(s: string, e: nat): (j: nat)
    requires e <= |s|
    ensures j <= e
    ensures forall i :: j <= i < e ==> IsLowerHexDigit(s[i])
    ensures j == 0 || !IsLowerHexDigit(s[j - 1])
  {
    if e > 0 && IsLowerHexDigit(s[e - 1]) then HexRunStart(s, e - 1) else e
  }

  /**
    `re.sub(r'\[0x[0-9a-f]+\]$', '', s)`: removes the hex suffix if `s` ends
    with one, and otherwise returns `s` unchanged.
  */
  function StripHexSuffix(s: string): (r: string)
    ensures r <= s
    ensures r != s ==> IsHexSuffix(s[|r|..])
    ensures r == s ==> forall i :: 0 <= i <= |s| ==> !IsHexSuffix(s[i..])
  {
    if |s| >= 5 && s[|s| - 1] == ']' && 3 <= HexRunStart(s, |s| - 1) < |s| - 1
       && s[HexRunStart(s, |s| - 1) - 3..HexRunStart(s, |s| - 1)] == "[0x"
    then
      var j := HexRunStart(s, |s| - 1);
      assert s[j - 3..][..3] == s[j - 3..j];
      s[..j - 3]
    else
      assert forall i | 0 <= i <= |s| :: !IsHexSuffix(s[i..]) by {
        forall i | 0 <= i <= |s| ensures !IsHexSuffix(s[i..]) {
          HexSuffixAt(s, i);
        }
      }
      s
  }

  /** A hex suffix starts three characters before the hex run that ends just before the final `]`. */
  lemma HexSuffixAt(s: string, i: int)
    requires 0 <= i <= |s|
    ensures IsHexSuffix(s[i..]) ==>
              && |s| >= 5 && s[|s| - 1] == ']'
              && i + 3 == HexRunStart(s, |s| - 1)
              && s[i..i + 3] == "[0x"
  {
    if IsHexSuffix(s[i..]) {
      var t := s[i..];
      assert s[i..i + 3] == t[..3];
      forall k | i + 3 <= k < |s| - 1 ensures IsLowerHexDigit(s[k]) {
        assert s[k] == t[k - i];
      }
      assert s[i + 2] == t[2] == 'x';
      HexRunFrom(s, |s| - 1, i + 3);
    }
  }

  /** A hex run ending at `e` that cannot be extended further left starts at `HexRunStart(s, e)`. */
  lemma {:induction false} HexRunFrom(s: string, e: nat, j: nat)
    requires j <= e <= |s|
    requires forall k :: j <= k < e ==> IsLowerHexDigit(s[k])
    requires j == 0 || !IsLowerHexDigit(s[j - 1])
    ensures HexRunStart(s, e) == j
    decreases e
  {
    if e > j {
      HexRunFrom(s, e - 1, j);
    }
  }

  /** At most one suffix of a string is a hex suffix. */
  lemma HexSuffixUnique(s: string, i: nat, j: nat)
    requires i <= |s| && j <= |s|
    requires IsHexSuffix(s[i..]) && IsHexSuffix(s[j..])
    ensures i == j
  {
    HexSuffixAt(s, i);
    HexSuffixAt(s, j);
  }

  /** `symbol.name[4:]`: the name without its first four characters (empty if shorter). */
  function DropPrefix(name: string): string
  {
    if |name| < 4 then "" else name[4..]
  }

  /** The selector text of a symbol name: prefix dropped, one hex suffix stripped. */
  function Sanitize(name: string): string
  {
    StripHexSuffix(DropPrefix(name))
  }

  /** `full_name`: the name the trampoline receives. */
  function TrampolineName(name: string): string
  {
    SendMsgPrefix + Sanitize(name)
  }

  /**
    For a selector symbol the name is `sel_` + rest, and the trampoline name is
    `_objc_sendMsg$` + rest, less the hex suffix if rest ends with one.
  */
  lemma TrampolineNameOfSelector(symbols: map<int, string>, start: int)
    requires IsSelectorString(symbols, start)
    ensures var rest := symbols[start][|SelectorPrefix|..];
            && symbols[start] == SelectorPrefix + rest
            && TrampolineName(symbols[start]) == SendMsgPrefix + StripHexSuffix(rest)
            && (StripHexSuffix(rest) == rest <==> forall i :: 0 <= i <= |rest| ==> !IsHexSuffix(rest[i..]))
  {
  }

  /** Names without a hex suffix only lose their prefix. */
  lemma PlainNameExamples()
    ensures TrampolineName("sel_initWithFrame:") == "_objc_sendMsg$initWithFrame:"
    ensures Sanitize("sel_bar") == "bar"
    ensures Sanitize("sel") == ""
  {
  }

  /** One lower-case hex suffix is stripped. */
  lemma StripsHexSuffixExample()
    ensures Sanitize("sel_foo:[0x1000]") == "foo:"
  {
    var t := "foo:[0x1000]";
    assert DropPrefix("sel_foo:[0x1000]") == t;
    HexRunFrom(t, 11, 7);
  }

  /** Upper-case hex digits are no match for `[0-9a-f]`. */
  lemma KeepsUpperCaseSuffixExample()
    ensures Sanitize("sel_x[0xAB]") == "x[0xAB]"
  {
    var t := "x[0xAB]";
    assert DropPrefix("sel_x[0xAB]") == t;
    HexRunFrom(t, 6, 6);
  }

  /** Only the last of two suffixes goes. */
  lemma StripsOnlyOnceExample()
    ensures Sanitize("sel_x[0x1][0x2]") == "x[0x1]"
  {
    var t := "x[0x1][0x2]";
    assert DropPrefix("sel_x[0x1][0x2]") == t;
    HexRunFrom(t, 10, 9);
  }
}
