/** The string operations the service layer builds its identifiers from.
    Case mapping is ASCII; white space is Unicode's. */
module Text {

  predicate IsSpace(c: char) {
    || c in "\t\n\r "
    || c == '\U{000B}' || c == '\U{000C}' || c == '\U{0085}' || c == '\U{00A0}' || c == '\U{1680}'
    || '\U{2000}' <= c <= '\U{200A}'
    || c == '\U{2028}' || c == '\U{2029}' || c == '\U{202F}' || c == '\U{205F}' || c == '\U{3000}'
  }

  function LowerChar(c: char): char {
    if 'A' <= c <= 'Z' then (c as int + 32) as char else c
  }

  function UpperChar(c: char): char {
    if 'a' <= c <= 'z' then (c as int - 32) as char else c
  }

  function Lower(s: string): string {
    seq(|s|, i requires 0 <= i < |s| => LowerChar(s[i]))
  }

  function Upper(s: string): string {
    seq(|s|, i requires 0 <= i < |s| => UpperChar(s[i]))
  }

  function TrimLeft(s: string): (r: string)
    ensures |r| > 0 ==> !IsSpace(r[0]) && |r| <= |s| && r[|r| - 1] == s[|s| - 1]
  {
    if s == "" || !IsSpace(s[0]) then s else TrimLeft(s[1..])
  }

  function TrimRight(s: string): (r: string)
    ensures |r| > 0 ==> !IsSpace(r[|r| - 1]) && |r| <= |s| && r[0] == s[0]
  {
    if s == "" || !IsSpace(s[|s| - 1]) then s else TrimRight(s[..|s| - 1])
  }

  /** Neither end of the result is white space, so trimming again changes nothing. */
  function TrimSpace(s: string): (r: string)
    ensures |r| > 0 ==> !IsSpace(r[0]) && !IsSpace(r[|r| - 1])
  {
    TrimRight(TrimLeft(s))
  }

  lemma TrimFixed(s: string)
    requires |s| > 0 ==> !IsSpace(s[0]) && !IsSpace(s[|s| - 1])
    ensures TrimSpace(s) == s
  {
  }

  predicate Blank(s: string) { forall i :: 0 <= i < |s| ==> s[i] in " \t\r\n" }

  lemma {:induction false} TrimLeftPad(pre: string, s: string)
    requires Blank(pre)
    ensures TrimLeft(pre + s) == TrimLeft(s)
  {
    if pre == "" {
      assert pre + s == s;
    } else {
      assert (pre + s)[1..] == pre[1..] + s;
      TrimLeftPad(pre[1..], s);
    }
  }

  lemma {:induction false} TrimRightPad(s: string, post: string)
    requires Blank(post)
    ensures TrimRight(s + post) == TrimRight(s)
  {
    if post == "" {
      assert s + post == s;
    } else {
      assert (s + post)[..|s + post| - 1] == s + post[..|post| - 1];
      TrimRightPad(s, post[..|post| - 1]);
    }
  }

  /** A text and blanks after it: trimmed from the left, the blanks stay, unless nothing else was there. */
  lemma {:induction false} TrimLeftKeepsEnd(s: string, post: string)
    requires Blank(post)
    ensures TrimRight(TrimLeft(s + post)) == TrimRight(TrimLeft(s))
  {
    if s == "" {
      assert s + post == post;
      TrimLeftPad(post, "");
      assert post + "" == post;
    } else if IsSpace(s[0]) {
      assert (s + post)[1..] == s[1..] + post;
      TrimLeftKeepsEnd(s[1..], post);
    } else {
      TrimRightPad(s, post);
    }
  }

  /** Blanks around a text make no difference once it is trimmed. */
  lemma TrimPad(pre: string, s: string, post: string)
    requires Blank(pre) && Blank(post)
    ensures TrimSpace(pre + s + post) == TrimSpace(s)
  {
    var t := s + post;
    assert pre + s + post == pre + t;
    TrimLeftPad(pre, t);
    TrimLeftKeepsEnd(s, post);
  }

  /** The same character, or the two cases of one ASCII letter. */
  predicate SameLetter(a: char, b: char) {
    || a == b
    || ('a' <= a <= 'z' && a as int - b as int == 32)
    || ('a' <= b <= 'z' && b as int - a as int == 32)
  }

  predicate SameLetters(s: string, t: string) {
    |s| == |t| && forall i :: 0 <= i < |s| ==> SameLetter(s[i], t[i])
  }

  /** Lower-casing identifies exactly the texts that differ in the case of ASCII letters. */
  lemma LowerSame(s: string, t: string)
    ensures Lower(s) == Lower(t) <==> SameLetters(s, t)
  {
    if Lower(s) == Lower(t) {
      assert |s| == |Lower(s)| == |Lower(t)| == |t|;
      forall i | 0 <= i < |s| ensures SameLetter(s[i], t[i]) {
        assert Lower(s)[i] == LowerChar(s[i]) && Lower(t)[i] == LowerChar(t[i]);
      }
    }
  }

  lemma UpperSame(s: string, t: string)
    ensures Upper(s) == Upper(t) <==> SameLetters(s, t)
  {
    if Upper(s) == Upper(t) {
      assert |s| == |Upper(s)| == |Upper(t)| == |t|;
      forall i | 0 <= i < |s| ensures SameLetter(s[i], t[i]) {
        assert Upper(s)[i] == UpperChar(s[i]) && Upper(t)[i] == UpperChar(t[i]);
      }
    }
  }

  lemma {:induction false} TrimLeftSame(s: string, t: string)
    requires SameLetters(s, t)
    ensures SameLetters(TrimLeft(s), TrimLeft(t))
  {
    if s != "" && IsSpace(s[0]) {
      TrimLeftSame(s[1..], t[1..]);
    }
  }

  lemma {:induction false} TrimRightSame(s: string, t: string)
    requires SameLetters(s, t)
    ensures SameLetters(TrimRight(s), TrimRight(t))
  {
    if s != "" && IsSpace(s[|s| - 1]) {
      TrimRightSame(s[..|s| - 1], t[..|t| - 1]);
    }
  }

  lemma TrimSame(s: string, t: string)
    requires SameLetters(s, t)
    ensures SameLetters(TrimSpace(s), TrimSpace(t))
  {
    TrimLeftSame(s, t);
    TrimRightSame(TrimLeft(s), TrimLeft(t));
  }

  predicate Free(s: string, c: char) { c !in s }

  /** The pieces of `s` between occurrences of `sep`; always at least one piece. */
  function Split(s: string, sep: char): (parts: seq<string>)
    ensures |parts| > 0
  {
    if s == "" then [""]
    else
      var rest := Split(s[1..], sep);
      if s[0] == sep then [""] + rest else [[s[0]] + rest[0]] + rest[1..]
  }

  /** A piece free of the separator is recovered whole, and splitting goes on after it. */
  lemma {:induction false} SplitAt(a: string, sep: char, b: string)
    requires Free(a, sep)
    ensures Split(a + [sep] + b, sep) == [a] + Split(b, sep)
  {
    if a == "" {
      assert a + [sep] + b == [sep] + b;
      assert ([sep] + b)[1..] == b;
    } else {
      assert (a + [sep] + b)[1..] == a[1..] + [sep] + b;
      SplitAt(a[1..], sep, b);
      assert a == [a[0]] + a[1..];
    }
  }

  lemma {:induction false} SplitWhole(a: string, sep: char)
    requires Free(a, sep)
    ensures Split(a, sep) == [a]
  {
    if a != "" {
      SplitWhole(a[1..], sep);
      assert a == [a[0]] + a[1..];
    }
  }

  lemma SplitTwo(a: string, sep: char, b: string)
    requires Free(a, sep) && Free(b, sep)
    ensures Split(a + [sep] + b, sep) == [a, b]
  {
    SplitWhole(b, sep);
    SplitAt(a, sep, b);
  }

  /** A text joined from three pieces, the last of them any text, splits back. */
  lemma SplitThree(a: string, sep: char, b: string, c: string)
    requires Free(a, sep) && Free(b, sep)
    ensures Split(a + [sep] + b + [sep] + c, sep) == [a, b] + Split(c, sep)
  {
    var tail := b + [sep] + c;
    assert a + [sep] + b + [sep] + c == a + [sep] + tail;
    SplitAt(a, sep, tail);
    SplitAt(b, sep, c);
    var pieces := Split(c, sep);
    assert [a] + ([b] + pieces) == [a, b] + pieces;
  }

  /** Only a text free of the separator is a single piece. */
  lemma {:induction false} SplitSingle(a: string, sep: char)
    ensures |Split(a, sep)| == 1 <==> Free(a, sep)
  {
    if a != "" {
      SplitSingle(a[1..], sep);
      assert a == [a[0]] + a[1..];
    }
  }

  /** A text cut at its first separator is cut one way only. */
  lemma CutUnique(a: string, sep: char, b: string, a': string, b': string)
    requires Free(a, sep) && Free(a', sep)
    requires a + [sep] + b == a' + [sep] + b'
    ensures a == a' && b == b'
  {
    SplitAt(a, sep, b);
    SplitAt(a', sep, b');
    assert a == Split(a + [sep] + b, sep)[0] == a';
    assert b == (a + [sep] + b)[|a| + 1..];
    assert b' == (a' + [sep] + b')[|a'| + 1..];
  }
}
