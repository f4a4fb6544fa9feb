/**
 * Conversion of attribute names between the external lower_underscore form
 * used in query text and the internal lowerCamel form of rule attributes, as
 * Guava's `CaseFormat.LOWER_UNDERSCORE.to(CaseFormat.LOWER_CAMEL, name)` does
 * it for ASCII text: the name is split into words at every `_`; the first
 * word is lower-cased; every later word has its first character upper-cased
 * and the rest lower-cased; the words are joined with no separator.
 *
 * The reverse conversion (lowerCamel to lower_underscore) is modelled as the
 * partner of the forward one: on well-formed names the two are inverse.
 */
module CaseFormat {

  predicate IsAsciiUpper(c: char) { 'A' <= c <= 'Z' }
  predicate IsAsciiLower(c: char) { 'a' <= c <= 'z' }
  predicate IsAsciiDigit(c: char) { '0' <= c <= '9' }

  function ToLowerChar(c: char): (r: char)
    ensures IsAsciiUpper(c) ==> IsAsciiLower(r)
    ensures !IsAsciiUpper(c) ==> r == c
  {
    if IsAsciiUpper(c) then (c as int - 'A' as int + 'a' as int) as char else c
  }

  function ToUpperChar(c: char): (r: char)
    ensures IsAsciiLower(c) ==> IsAsciiUpper(r) && ToLowerChar(r) == c
    ensures !IsAsciiLower(c) ==> r == c
  {
    if IsAsciiLower(c) then (c as int - 'a' as int + 'A' as int) as char else c
  }

  /** Guava's `Ascii.toLowerCase`: only the letters A to Z change. */
  function ToLowerAscii(s: string): (r: string)
    ensures |r| == |s|
    ensures forall i :: 0 <= i < |s| ==> r[i] == ToLowerChar(s[i])
  {
    if s == [] then [] else [ToLowerChar(s[0])] + ToLowerAscii(s[1..])
  }

  /**
   * `ws` joined with `_` between consecutive words. This is the same string as
   * `QueryEnvironment.JoinWith("_", ws)`. It is written as a first word
   * followed by `SeparatedTail` because the round-trip proof below handles one
   * `_`-prefixed word at a time: `ToLowerUnderscore` turns each capitalised
   * word back into exactly one `SeparatedTail` step.
   */
  function Join(ws: seq<string>): string
    requires |ws| >= 1
  {
    ws[0] + SeparatedTail(ws[1..])
  }

  /** Each word of `ws` preceded by `_`. */
  function SeparatedTail(ws: seq<string>): string
  {
    if ws == [] then [] else "_" + ws[0] + SeparatedTail(ws[1..])
  }

  /** The words of `s`: the maximal runs between `_` characters, empty runs included. */
  function Words(s: string): (ws: seq<string>)
    ensures |ws| >= 1
    ensures forall k :: 0 <= k < |ws| ==> '_' !in ws[k]
    ensures Join(ws) == s
  {
    if s == [] then [[]]
    else
      var rest := Words(s[1..]);
      if s[0] == '_' then [[]] + rest
      else [[s[0]] + rest[0]] + rest[1..]
  }

  /** Guava's `firstCharOnlyToUpper`: the LOWER_CAMEL form of a non-initial word. */
  function FirstCharOnlyToUpper(w: string): (r: string)
    ensures |r| == |w|
  {
    if w == [] then [] else [ToUpperChar(w[0])] + ToLowerAscii(w[1..])
  }

  /** The LOWER_CAMEL forms of non-initial words, concatenated. */
  function CapitalizeWords(ws: seq<string>): string
  {
    if ws == [] then [] else FirstCharOnlyToUpper(ws[0]) + CapitalizeWords(ws[1..])
  }

  /**
   * `CaseFormat.LOWER_UNDERSCORE.to(CaseFormat.LOWER_CAMEL, s)`: the attribute
   * key `attrfilter` looks up. No `_` survives the conversion, whatever the input.
   */
  function ToLowerCamel(s: string): (r: string)
    ensures '_' !in r
  {
    var ws := Words(s);
    LowerHasNoUnderscore(ws[0]);
    CapitalizedHaveNoUnderscore(ws[1..]);
    ToLowerAscii(ws[0]) + CapitalizeWords(ws[1..])
  }

  /**
   * The reverse conversion, from lowerCamel back to lower_underscore, for
   * names that start with a lower-case letter: each upper-case letter starts a
   * new word, so it becomes `_` and its lower-case form. On a name that starts
   * with an upper-case letter this yields a leading `_`, which Guava's
   * LOWER_CAMEL conversion does not; the round trip below only needs names
   * that start with a lower-case letter.
   */
  function ToLowerUnderscore(s: string): string
  {
    if s == [] then []
    else (if IsAsciiUpper(s[0]) then "_" + [ToLowerChar(s[0])] else [s[0]]) + ToLowerUnderscore(s[1..])
  }

  /** A character allowed inside a lower_underscore word. */
  predicate IsWordChar(c: char) { IsAsciiLower(c) || IsAsciiDigit(c) }

  /**
   * The characters of a lower_underscore name, from any position on: word
   * characters, and `_` only directly before a lower-case letter.
   */
  predicate IsNameTail(s: string) {
    forall i :: 0 <= i < |s| ==> IsNameCharAt(s, i)
  }

  /** Position `i` of `s` holds a word character, or a `_` followed by a lower-case letter. */
  predicate IsNameCharAt(s: string, i: nat)
    requires i < |s|
  {
    IsWordChar(s[i]) || (s[i] == '_' && i + 1 < |s| && IsAsciiLower(s[i + 1]))
  }

  /**
   * A well-formed lower_underscore attribute name such as `compiler_flags`:
   * non-empty words of lower-case letters and digits, each starting with a
   * letter, separated by single underscores.
   */
  predicate IsLowerUnderscoreName(s: string) {
    s != [] && IsAsciiLower(s[0]) && IsNameTail(s)
  }

  predicate IsWordText(w: string) {
    forall i :: 0 <= i < |w| ==> IsWordChar(w[i])
  }

  lemma LowerHasNoUnderscore(w: string)
    requires '_' !in w
    ensures '_' !in ToLowerAscii(w)
  {
  }

  lemma {:induction false} CapitalizedHaveNoUnderscore(ws: seq<string>)
    requires forall k :: 0 <= k < |ws| ==> '_' !in ws[k]
    ensures '_' !in CapitalizeWords(ws)
  {
    if ws != [] {
      var w := ws[0];
      if w != [] {
        assert w[0] in w;
        LowerHasNoUnderscore(w[1..]);
      }
      CapitalizedHaveNoUnderscore(ws[1..]);
    }
  }

  /** A name without `_` is a single word: it is only lower-cased. */
  lemma SingleWordIsLowerCased(s: string)
    requires '_' !in s
    ensures ToLowerCamel(s) == ToLowerAscii(s)
  {
    SingleWord(s);
  }

  lemma {:induction false} SingleWord(s: string)
    requires '_' !in s
    ensures Words(s) == [s]
  {
    if s != [] {
      assert s[0] in s;
      assert forall c :: c in s[1..] ==> c in s;
      SingleWord(s[1..]);
      assert [s[0]] + s[1..] == s;
    }
  }

  lemma LowerAsciiOfWordText(w: string)
    requires IsWordText(w)
    ensures ToLowerAscii(w) == w
  {
  }

  lemma {:induction false} UnderscoreOfConcat(a: string, b: string)
    ensures ToLowerUnderscore(a + b) == ToLowerUnderscore(a) + ToLowerUnderscore(b)
  {
    if a != [] {
      var head := if IsAsciiUpper(a[0]) then "_" + [ToLowerChar(a[0])] else [a[0]];
      assert (a + b)[0] == a[0];
      assert (a + b)[1..] == a[1..] + b;
      UnderscoreOfConcat(a[1..], b);
      calc {
        ToLowerUnderscore(a + b);
        head + ToLowerUnderscore(a[1..] + b);
        head + (ToLowerUnderscore(a[1..]) + ToLowerUnderscore(b));
        (head + ToLowerUnderscore(a[1..])) + ToLowerUnderscore(b);
      }
    } else {
      assert a + b == b;
    }
  }

  lemma {:induction false} UnderscoreOfWordText(w: string)
    requires IsWordText(w)
    ensures ToLowerUnderscore(w) == w
  {
    if w != [] {
      UnderscoreOfWordText(w[1..]);
    }
  }

  /** An upper-case letter followed by word text reads back as `_`, its lower-case form, and the text. */
  lemma UnderscoreOfUpperThenWordText(c: char, w: string)
    requires IsAsciiUpper(c) && IsWordText(w)
    ensures ToLowerUnderscore([c] + w) == "_" + [ToLowerChar(c)] + w
  {
    UnderscoreOfWordText(w);
    UnderscoreOfConcat([c], w);
    assert [c][1..] == [];
  }

  /** Capitalising word text only upper-cases its first character. */
  lemma CapitalizedWordText(w: string)
    requires w != [] && IsWordText(w)
    ensures IsWordText(w[1..])
    ensures FirstCharOnlyToUpper(w) == [ToUpperChar(w[0])] + w[1..]
  {
    assert IsWordText(w[1..]);
    LowerAsciiOfWordText(w[1..]);
  }

  /** A capitalised word `w` (starting with a letter) reads back as `_` + `w`. */
  lemma UnderscoreOfCapitalized(w: string)
    requires w != [] && IsAsciiLower(w[0]) && IsWordText(w)
    ensures ToLowerUnderscore(FirstCharOnlyToUpper(w)) == "_" + w
  {
    var c, rest := ToUpperChar(w[0]), w[1..];
    CapitalizedWordText(w);
    UnderscoreOfUpperThenWordText(c, rest);
    assert [ToLowerChar(c)] + rest == w;
  }

  lemma {:induction false} UnderscoreOfCapitalizeWords(ws: seq<string>)
    requires forall k :: 0 <= k < |ws| ==> ws[k] != [] && IsAsciiLower(ws[k][0]) && IsWordText(ws[k])
    ensures ToLowerUnderscore(CapitalizeWords(ws)) == SeparatedTail(ws)
  {
    if ws != [] {
      UnderscoreOfConcat(FirstCharOnlyToUpper(ws[0]), CapitalizeWords(ws[1..]));
      UnderscoreOfCapitalized(ws[0]);
      UnderscoreOfCapitalizeWords(ws[1..]);
    }
  }

  /**
   * The words of a name tail: all are word text, and every word after the
   * first is non-empty and starts with a lower-case letter.
   */
  lemma {:induction false} WordsOfNameTail(s: string)
    requires IsNameTail(s)
    ensures IsWordText(Words(s)[0])
    ensures s != [] && IsAsciiLower(s[0]) ==> Words(s)[0] != [] && Words(s)[0][0] == s[0]
    ensures forall k :: 1 <= k < |Words(s)| ==>
      Words(s)[k] != [] && IsAsciiLower(Words(s)[k][0]) && IsWordText(Words(s)[k])
  {
    if s != [] {
      assert IsNameTail(s[1..]) by {
        forall i | 0 <= i < |s[1..]|
          ensures IsNameCharAt(s[1..], i)
        {
          assert IsNameCharAt(s, i + 1);
        }
      }
      WordsOfNameTail(s[1..]);
      var rest := Words(s[1..]);
      assert IsNameCharAt(s, 0);
      if s[0] == '_' {
        assert IsAsciiLower(s[1]);
        assert Words(s) == [[]] + rest;
      } else {
        assert Words(s) == [[s[0]] + rest[0]] + rest[1..];
        assert IsWordChar(s[0]);
      }
    }
  }

  /**
   * Round trip: converting a well-formed lower_underscore name to lowerCamel
   * and back gives the name again, so distinct names never collide.
   */
  lemma {:induction false} LowerCamelRoundTrip(s: string)
    requires IsLowerUnderscoreName(s)
    ensures ToLowerUnderscore(ToLowerCamel(s)) == s
  {
    var ws := Words(s);
    WordsOfNameTail(s);
    LowerAsciiOfWordText(ws[0]);
    UnderscoreOfWordText(ws[0]);
    UnderscoreOfConcat(ToLowerAscii(ws[0]), CapitalizeWords(ws[1..]));
    UnderscoreOfCapitalizeWords(ws[1..]);
  }

  /** Distinct well-formed names map to distinct internal names. */
  lemma LowerCamelInjective(a: string, b: string)
    requires IsLowerUnderscoreName(a) && IsLowerUnderscoreName(b)
    requires ToLowerCamel(a) == ToLowerCamel(b)
    ensures a == b
  {
    LowerCamelRoundTrip(a);
    LowerCamelRoundTrip(b);
  }

  /** A first word without `_` followed by `_` splits off as a word of its own. */
  lemma {:induction false} WordsOfSeparated(a: string, b: string)
    requires '_' !in a
    ensures Words(a + "_" + b) == [a] + Words(b)
  {
    if a == [] {
      assert a + "_" + b == "_" + b;
      assert ("_" + b)[1..] == b;
    } else {
      assert a[0] in a;
      assert forall c :: c in a[1..] ==> c in a;
      assert (a + "_" + b)[0] == a[0];
      assert (a + "_" + b)[1..] == a[1..] + "_" + b;
      WordsOfSeparated(a[1..], b);
      assert [a[0]] + a[1..] == a;
    }
  }

  /** A two-word name `a_b` becomes `a` lower-cased followed by `b` capitalised. */
  lemma TwoWordName(a: string, b: string)
    requires '_' !in a && '_' !in b
    ensures ToLowerCamel(a + "_" + b) == ToLowerAscii(a) + FirstCharOnlyToUpper(b)
  {
    WordsOfSeparated(a, b);
    SingleWord(b);
    assert CapitalizeWords([b]) == FirstCharOnlyToUpper(b) + CapitalizeWords([]);
  }

  /** For two well-formed words, `a_b` becomes `a` followed by `b` with its first letter upper-cased. */
  lemma TwoWordTextName(a: string, b: string)
    requires IsWordText(a) && b != [] && IsAsciiLower(b[0]) && IsWordText(b)
    ensures ToLowerCamel(a + "_" + b) == a + [ToUpperChar(b[0])] + b[1..]
  {
    var c, rest := ToUpperChar(b[0]), b[1..];
    TwoWordName(a, b);
    LowerAsciiOfWordText(a);
    CapitalizedWordText(b);
    calc {
      ToLowerCamel(a + "_" + b);
      ToLowerAscii(a) + FirstCharOnlyToUpper(b);
      a + ([c] + rest);
      a + [c] + rest;
    }
  }

  /** `compiler_flags` is looked up as `compilerFlags`. */
  lemma CompilerFlagsExample(name: string)
    requires name == "compiler_flags"
    ensures ToLowerCamel(name) == "compilerFlags"
  {
    var first, second := "compiler", "flags";
    assert name == first + "_" + second;
    assert IsWordText(first) && IsWordText(second);
    TwoWordTextName(first, second);
  }

  /** A single-word name such as `visibility` is unchanged. */
  lemma VisibilityExample(name: string)
    requires name == "visibility"
    ensures ToLowerCamel(name) == "visibility"
  {
    assert '_' !in name;
    SingleWordIsLowerCased(name);
    assert IsWordText(name);
    LowerAsciiOfWordText(name);
  }
}
