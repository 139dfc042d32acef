/** The PHP built-ins the request builder relies on, on strings and lists of strings. */
module Php {
  import opened Wrappers
  import opened Strings

  /** PHP's `empty()` on a string: true exactly for "" and "0". */
  predicate IsEmptyString(s: string) {
    s == "" || s == "0"
  }

  /** `htmlspecialchars` with ENT_QUOTES on one character. */
  function EscapeChar(c: char): string {
    if c == '&' then "&amp;"
    else if c == '"' then "&quot;"
    else if c == '\'' then "&#039;"
    else if c == '<' then "&lt;"
    else if c == '>' then "&gt;"
    else [c]
  }

  /** No character that could end an attribute value or open or close a tag. */
  predicate AttributeSafe(s: string) {
    forall i :: 0 <= i < |s| ==> s[i] != '<' && s[i] != '>' && s[i] != '"' && s[i] != '\''
  }

  /** Characters `htmlspecialchars` leaves alone. */
  predicate NoSpecialChars(s: string) {
    forall i :: 0 <= i < |s| ==> s[i] !in "&\"'<>"
  }

  /**
   * `htmlspecialchars($s, ENT_QUOTES)`: the five special characters become
   * entities, every other character is kept. The result is safe inside a
   * double- or single-quoted attribute and as element text.
   */
  function HtmlSpecialChars(s: string): (r: string)
    ensures AttributeSafe(r)
    ensures |s| <= |r|
  {
    if s == [] then [] else EscapeChar(s[0]) + HtmlSpecialChars(s[1..])
  }

  /** `htmlspecialchars_decode($s, ENT_QUOTES)` for the five entities above. */
  function HtmlSpecialCharsDecode(s: string): string
    decreases |s|
  {
    if s == [] then []
    else if s[0] != '&' then [s[0]] + HtmlSpecialCharsDecode(s[1..])
    else match EntityAt(s)
      case Some((c, k)) => [c] + HtmlSpecialCharsDecode(s[k..])
      case None => "&" + HtmlSpecialCharsDecode(s[1..])
  }

  /** The character named by the entity at the start of `s`, and the entity's length. */
  function EntityAt(s: string): (r: Option<(char, nat)>)
    ensures r.Some? ==> 1 <= r.value.1 <= |s|
  {
    if HasPrefix(s, "&amp;") then Some(('&', 5))
    else if HasPrefix(s, "&quot;") then Some(('"', 6))
    else if HasPrefix(s, "&#039;") then Some(('\'', 6))
    else if HasPrefix(s, "&lt;") then Some(('<', 4))
    else if HasPrefix(s, "&gt;") then Some(('>', 4))
    else None
  }

  lemma DecodeEscapedChar(c: char, rest: string)
    ensures HtmlSpecialCharsDecode(EscapeChar(c) + rest) == [c] + HtmlSpecialCharsDecode(rest)
  {
    var ent := EscapeChar(c);
    var e := ent + rest;
    assert e[..|ent|] == ent && e[|ent|..] == rest;
    if c == '&' || c == '"' || c == '\'' || c == '<' || c == '>' {
      assert e[0] == '&';
      EntityOfEscaped(c, rest);
    } else {
      assert e[0] == c;
    }
  }

  lemma EntityOfEscaped(c: char, rest: string)
    requires c == '&' || c == '"' || c == '\'' || c == '<' || c == '>'
    ensures EntityAt(EscapeChar(c) + rest) == Some((c, |EscapeChar(c)|))
  {
    var ent := EscapeChar(c);
    var e := ent + rest;
    assert e[..|ent|] == ent;
    assert e[1] == ent[1];
    if c == '\'' {
      assert !HasPrefix(e, "&amp;") && !HasPrefix(e, "&quot;");
    } else if c == '>' {
      assert e[1] == 'g';
      assert !HasPrefix(e, "&lt;");
    }
  }

  /** Escaping loses nothing: decoding the escaped text gives the original back. */
  lemma {:induction false} DecodeHtmlSpecialChars(s: string)
    ensures HtmlSpecialCharsDecode(HtmlSpecialChars(s)) == s
  {
    if s != [] {
      DecodeEscapedChar(s[0], HtmlSpecialChars(s[1..]));
      DecodeHtmlSpecialChars(s[1..]);
      assert [s[0]] + s[1..] == s;
    }
  }

  /** Every `&` in `s` starts one of the five entities. */
  predicate AmpersandsStartEntities(s: string) {
    forall i :: 0 <= i < |s| && s[i] == '&' ==> EntityAt(s[i..]).Some?
  }

  /** Escaping leaves no bare `&`: each one in the result begins an entity. */
  lemma {:induction false} HtmlSpecialCharsEscapesAmpersands(s: string)
    ensures AmpersandsStartEntities(HtmlSpecialChars(s))
  {
    if s != [] {
      var c := s[0];
      var e := EscapeChar(c);
      var t := HtmlSpecialChars(s[1..]);
      var r := e + t;
      HtmlSpecialCharsEscapesAmpersands(s[1..]);
      forall i | 0 <= i < |r| && r[i] == '&'
        ensures EntityAt(r[i..]).Some?
      {
        if i < |e| {
          assert r[i] == e[i];
          if c == '&' || c == '"' || c == '\'' || c == '<' || c == '>' {
            assert i == 0;
            EntityOfEscaped(c, t);
            assert r[i..] == r;
          }
        } else {
          assert r[i..] == t[i - |e|..];
          assert t[i - |e|] == '&';
        }
      }
    }
  }

  /** A string with none of the five special characters is left as it is (most URIs). */
  lemma {:induction false} HtmlSpecialCharsKeepsPlainText(s: string)
    requires NoSpecialChars(s)
    ensures HtmlSpecialChars(s) == s
  {
    if s != [] {
      assert s[0] !in "&\"'<>";
      HtmlSpecialCharsKeepsPlainText(s[1..]);
      assert [s[0]] + s[1..] == s;
    }
  }

  predicate Distinct<T(==)>(s: seq<T>) {
    forall i, j :: 0 <= i < j < |s| ==> s[i] != s[j]
  }

  /**
   * `array_unique`: the values of `s` with every repeat of an earlier value
   * dropped, in their original order.
   */
  function ArrayUnique<T(==)>(s: seq<T>): (r: seq<T>)
    ensures Distinct(r)
    ensures forall i :: 0 <= i < |s| ==> s[i] in r
    ensures forall i :: 0 <= i < |r| ==> r[i] in s
  {
    if s == [] then []
    else
      var kept := ArrayUnique(s[..|s| - 1]);
      if s[|s| - 1] in kept then kept else kept + [s[|s| - 1]]
  }

  /** The position of the first occurrence of `x` in `s`. */
  function FirstIndex<T(==)>(s: seq<T>, x: T): (i: nat)
    requires x in s
    ensures i < |s| && s[i] == x && x !in s[..i]
  {
    if s[0] == x then 0 else 1 + FirstIndex(s[1..], x)
  }

  lemma {:induction false} FirstIndexInPrefix<T>(p: seq<T>, q: seq<T>, x: T)
    requires x in p
    ensures FirstIndex(p + q, x) == FirstIndex(p, x)
  {
    if p[0] != x {
      assert (p + q)[1..] == p[1..] + q;
      FirstIndexInPrefix(p[1..], q, x);
    }
  }

  /** `array_unique` keeps values in the order of their first occurrence. */
  lemma {:induction false} ArrayUniqueKeepsFirstOccurrenceOrder<T>(s: seq<T>, i: int, j: int)
    requires 0 <= i < j < |ArrayUnique(s)|
    ensures FirstIndex(s, ArrayUnique(s)[i]) < FirstIndex(s, ArrayUnique(s)[j])
  {
    var p := s[..|s| - 1];
    var x := s[|s| - 1];
    assert s == p + [x];
    var kept := ArrayUnique(p);
    var r := ArrayUnique(s);
    assert r[i] in p;
    FirstIndexInPrefix(p, [x], r[i]);
    if j < |kept| {
      assert r[j] in p;
      FirstIndexInPrefix(p, [x], r[j]);
      ArrayUniqueKeepsFirstOccurrenceOrder(p, i, j);
    } else {
      assert r[j] == x && x !in p;
      assert FirstIndex(s, x) == |p|;
    }
  }

  /** A list without repeats comes back from `array_unique` unchanged. */
  lemma {:induction false} ArrayUniqueOfDistinct<T>(s: seq<T>)
    requires Distinct(s)
    ensures ArrayUnique(s) == s
  {
    if s != [] {
      var p := s[..|s| - 1];
      assert Distinct(p);
      ArrayUniqueOfDistinct(p);
      assert s[|s| - 1] !in p;
      assert p + [s[|s| - 1]] == s;
    }
  }

  /** Appending values already present changes nothing. */
  lemma {:induction false} ArrayUniqueAbsorbs<T>(a: seq<T>, b: seq<T>)
    requires forall i :: 0 <= i < |b| ==> b[i] in a
    ensures ArrayUnique(a + b) == ArrayUnique(a)
  {
    if b == [] {
      assert a + b == a;
    } else {
      var b' := b[..|b| - 1];
      assert (a + b)[..|a + b| - 1] == a + b';
      assert (a + b)[|a + b| - 1] == b[|b| - 1];
      ArrayUniqueAbsorbs(a, b');
    }
  }

  /** `implode($sep, $parts)`: the parts joined by `sep`. */
  function Implode(sep: string, parts: seq<string>): string {
    if parts == [] then ""
    else if |parts| == 1 then parts[0]
    else parts[0] + sep + Implode(sep, parts[1..])
  }
}
