/** String operations with the semantics of the JavaScript built-ins the pages use. */
module Text {
  import opened Wrappers

  /** `t` is a suffix of `s`. */
  predicate IsSuffix(t: string, s: string) {
    |t| <= |s| && s[|s| - |t|..] == t
  }

  /** `t` is a prefix of `s`. */
  predicate IsPrefix(t: string, s: string) {
    |t| <= |s| && s[..|t|] == t
  }

  /** `s.split(sep)` for a one-character separator: the pieces between separators, in order.
      Always at least one piece; no piece contains the separator; the last piece is a suffix of `s`. */
  function Split(s: string, sep: char): (parts: seq<string>)
    ensures |parts| >= 1
    ensures forall i :: 0 <= i < |parts| ==> sep !in parts[i]
    ensures IsSuffix(parts[|parts| - 1], s)
    decreases |s|
  {
    if s == [] then [[]]
    else
      var init := Split(s[..|s| - 1], sep);
      var c := s[|s| - 1];
      if c == sep then init + [[]]
      else
        var last := init[|init| - 1];
        assert s == s[..|s| - 1] + [c];
        assert s[|s| - |last| - 1..] == s[..|s| - 1][|s| - 1 - |last|..] + [c];
        init[..|init| - 1] + [last + [c]]
  }

  /** `parts.join(sep)`: the inverse of `Split`. */
  function Join(parts: seq<string>, sep: char): string
    requires |parts| >= 1
  {
    if |parts| == 1 then parts[0]
    else Join(parts[..|parts| - 1], sep) + [sep] + parts[|parts| - 1]
  }

  /** Splitting a string that ends in the separator: one more, empty, piece. */
  lemma SplitSnocSeparator(init: string, sep: char)
    ensures Split(init + [sep], sep) == Split(init, sep) + [[]]
  {
    var s := init + [sep];
    assert s[..|s| - 1] == init;
  }

  /** Splitting a string that ends in another character: that character extends the last piece. */
  lemma SplitSnocOther(init: string, c: char, sep: char)
    requires c != sep
    ensures var p := Split(init, sep);
            Split(init + [c], sep) == p[..|p| - 1] + [p[|p| - 1] + [c]]
  {
    var s := init + [c];
    assert s[..|s| - 1] == init;
  }

  /** Joining one more piece adds a separator and that piece. */
  lemma JoinSnoc(parts: seq<string>, x: string, sep: char)
    requires |parts| >= 1
    ensures Join(parts + [x], sep) == Join(parts, sep) + [sep] + x
  {
    assert (parts + [x])[..|parts|] == parts;
  }

  /** Splitting loses nothing: joining the pieces back gives the original string. */
  lemma {:induction false} JoinSplit(s: string, sep: char)
    ensures Join(Split(s, sep), sep) == s
    decreases |s|
  {
    if s != [] {
      var init := s[..|s| - 1];
      var c := s[|s| - 1];
      assert s == init + [c];
      JoinSplit(init, sep);
      var p := Split(init, sep);
      if c == sep {
        SplitSnocSeparator(init, sep);
        JoinSnoc(p, [], sep);
      } else {
        SplitSnocOther(init, c, sep);
        var n := |p|;
        if n > 1 {
          assert p == p[..n - 1] + [p[n - 1]];
          JoinSnoc(p[..n - 1], p[n - 1], sep);
          JoinSnoc(p[..n - 1], p[n - 1] + [c], sep);
        }
      }
    }
  }

  /** A string without the separator is one piece. */
  lemma {:induction false} SplitWithoutSeparator(s: string, sep: char)
    requires sep !in s
    ensures Split(s, sep) == [s]
    decreases |s|
  {
    if s != [] {
      var init := s[..|s| - 1];
      assert s == init + [s[|s| - 1]];
      SplitWithoutSeparator(init, sep);
      SplitSnocOther(init, s[|s| - 1], sep);
    }
  }

  /** Appending a separator and a separator-free tail adds exactly that tail as the last piece. */
  lemma {:induction false} SplitAppendPiece(s: string, sep: char, tail: string)
    requires sep !in tail
    ensures Split(s + [sep] + tail, sep) == Split(s, sep) + [tail]
    decreases |tail|
  {
    if tail == [] {
      assert s + [sep] + tail == s + [sep];
      SplitSnocSeparator(s, sep);
    } else {
      var t' := tail[..|tail| - 1];
      var c := tail[|tail| - 1];
      assert tail == t' + [c];
      assert s + [sep] + tail == (s + [sep] + t') + [c];
      SplitAppendPiece(s, sep, t');
      SplitSnocOther(s + [sep] + t', c, sep);
      var p := Split(s, sep) + [t'];
      assert p[..|p| - 1] == Split(s, sep);
    }
  }

  /** Two separator-free pieces joined by the separator split back into exactly those two. */
  lemma SplitTwoPieces(head: string, sep: char, tail: string)
    requires sep !in head && sep !in tail
    ensures Split(head + [sep] + tail, sep) == [head, tail]
  {
    SplitWithoutSeparator(head, sep);
    SplitAppendPiece(head, sep, tail);
    assert [head] + [tail] == [head, tail];
  }

  /** Joining separator-free pieces and splitting again gives back the pieces: `Join` and `Split`
      are inverse to each other. */
  lemma {:induction false} SplitJoin(parts: seq<string>, sep: char)
    requires |parts| >= 1
    requires forall i :: 0 <= i < |parts| ==> sep !in parts[i]
    ensures Split(Join(parts, sep), sep) == parts
    decreases |parts|
  {
    if |parts| == 1 {
      SplitWithoutSeparator(parts[0], sep);
    } else {
      var init := parts[..|parts| - 1];
      var last := parts[|parts| - 1];
      assert parts == init + [last];
      forall i | 0 <= i < |init| ensures sep !in init[i] {
        assert init[i] == parts[i];
      }
      SplitJoin(init, sep);
      JoinSnoc(init, last, sep);
      SplitAppendPiece(Join(init, sep), sep, last);
    }
  }

  /** The character of a decimal digit. */
  function DigitChar(d: nat): (c: char)
    requires d < 10
    ensures '0' <= c <= '9'
  {
    ('0' as int + d) as char
  }

  /** The number a string of decimal digits denotes, read left to right. */
  function DigitsValue(s: string): int
    decreases |s|
  {
    if s == [] then 0 else DigitsValue(s[..|s| - 1]) * 10 + (s[|s| - 1] as int - '0' as int)
  }

  /** The decimal text of a natural number, as JavaScript renders an integral number in a template:
      non-empty, digits only, and denoting exactly that number. */
  function NatToString(n: nat): (s: string)
    ensures |s| >= 1
    ensures forall i :: 0 <= i < |s| ==> '0' <= s[i] <= '9'
    ensures DigitsValue(s) == n
    decreases n
  {
    if n < 10 then
      assert [DigitChar(n)][..0] == [];
      [DigitChar(n)]
    else
      var prefix := NatToString(n / 10);
      var last := DigitChar(n % 10);
      assert (prefix + [last])[..|prefix|] == prefix;
      prefix + [last]
  }

  /** Different numbers have different texts. */
  lemma NatToStringInjective(n: nat, m: nat)
    requires NatToString(n) == NatToString(m)
    ensures n == m
  {
  }

  /** How a template literal `${x}` renders an optional string: `undefined` when absent. */
  function TemplateText(x: Option<string>): (s: string)
    ensures x.Some? ==> s == x.value
    ensures x.None? ==> s == "undefined"
  {
    match x
    case Some(v) => v
    case None => "undefined"
  }
}
