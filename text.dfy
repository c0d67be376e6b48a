/** String operations the package descriptor relies on: global replacement of a
    literal token (Ruby's `gsub!` with a regular expression that is a plain
    word, the replacement taken literally), splitting on and joining with a
    separator, ASCII lower-casing (`downcase`) and the decimal rendering of an
    integer (`to_s`, used by string interpolation). */
module Text {

  /** `pat` occurs in `s` starting at index `i`. */
  predicate MatchAt(s: string, pat: string, i: nat)
  {
    i + |pat| <= |s| && s[i..i + |pat|] == pat
  }

  /** `pat` occurs somewhere in `s`. */
  ghost predicate Contains(s: string, pat: string)
  {
    exists i: nat :: MatchAt(s, pat, i)
  }

  /** An occurrence in `s[1..]` is an occurrence in `s`, one position later. */
  lemma ContainsTail(s: string, pat: string)
    requires s != []
    ensures Contains(s[1..], pat) ==> Contains(s, pat)
  {
    if Contains(s[1..], pat) {
      var i: nat :| MatchAt(s[1..], pat, i);
      MatchAtTail(s, pat, i);
    }
  }

  /** A one-character pattern occurs exactly where the character does. */
  lemma ContainsChar(s: string, c: char)
    ensures Contains(s, [c]) <==> c in s
  {
    if c in s {
      var i :| 0 <= i < |s| && s[i] == c;
      assert MatchAt(s, [c], i);
    }
    if Contains(s, [c]) {
      var i: nat :| MatchAt(s, [c], i);
      assert s[i] == s[i..i + 1][0];
    }
  }

  /** Replaces every occurrence of `pat` in `s` by `rep`, scanning from left to
      right and resuming after each replaced occurrence. `rep` is inserted
      literally: the backslash escapes that Ruby's `gsub` expands in a
      replacement string are not interpreted. The result is `s` cut at every
      occurrence and joined again with `rep`, so the text between occurrences
      is kept as it is. */
  function ReplaceAll(s: string, pat: string, rep: string): (r: string)
    requires pat != []
    ensures r == Join(SplitOn(s, pat), rep)
    decreases |s|
  {
    if |s| < |pat| then s
    else if s[..|pat|] == pat then
      JoinConsEmpty(SplitOn(s[|pat|..], pat), rep);
      rep + ReplaceAll(s[|pat|..], pat, rep)
    else
      JoinConsHead(s[0], SplitOn(s[1..], pat), rep);
      [s[0]] + ReplaceAll(s[1..], pat, rep)
  }

  /** A string without an occurrence of the token is left as it is. */
  lemma {:induction false} ReplaceAllWithoutMatch(s: string, pat: string, rep: string)
    requires pat != []
    ensures !Contains(s, pat) ==> ReplaceAll(s, pat, rep) == s
    decreases |s|
  {
    if !Contains(s, pat) && |s| >= |pat| {
      assert !MatchAt(s, pat, 0);
      ContainsTail(s, pat);
      ReplaceAllWithoutMatch(s[1..], pat, rep);
      assert s == [s[0]] + s[1..];
    }
  }

  /** The pieces of `s` between the occurrences of `sep`, found from left to
      right; there is always one piece more than there are occurrences, and
      empty pieces are kept. */
  function SplitOn(s: string, sep: string): (pieces: seq<string>)
    requires sep != []
    ensures pieces != []
    decreases |s|
  {
    if |s| < |sep| then [s]
    else if s[..|sep|] == sep then [[]] + SplitOn(s[|sep|..], sep)
    else
      var rest := SplitOn(s[1..], sep);
      [[s[0]] + rest[0]] + rest[1..]
  }

  /** The pieces, with `sep` between each two neighbours. */
  function Join(pieces: seq<string>, sep: string): string
  {
    if pieces == [] then []
    else if |pieces| == 1 then pieces[0]
    else pieces[0] + sep + Join(pieces[1..], sep)
  }

  lemma JoinConsHead(c: char, pieces: seq<string>, sep: string)
    requires pieces != []
    ensures Join([[c] + pieces[0]] + pieces[1..], sep) == [c] + Join(pieces, sep)
  {
    var ps := [[c] + pieces[0]] + pieces[1..];
    assert ps[1..] == pieces[1..];
  }

  lemma JoinConsEmpty(pieces: seq<string>, sep: string)
    requires pieces != []
    ensures Join([[]] + pieces, sep) == sep + Join(pieces, sep)
  {
    assert ([[]] + pieces)[1..] == pieces;
  }

  /** Splitting on a separator and joining with it again gives back the string. */
  lemma {:induction false} JoinSplitOn(s: string, sep: string)
    requires sep != []
    ensures Join(SplitOn(s, sep), sep) == s
    decreases |s|
  {
    if |s| < |sep| {
    } else if s[..|sep|] == sep {
      var tail := s[|sep|..];
      var rest := SplitOn(tail, sep);
      SplitOnAtMatch(s, sep);
      JoinSplitOn(tail, sep);
      JoinConsEmpty(rest, sep);
      assert s == sep + tail;
    } else {
      var tail := s[1..];
      var rest := SplitOn(tail, sep);
      SplitOnAtOther(s, sep);
      JoinSplitOn(tail, sep);
      JoinConsHead(s[0], rest, sep);
      assert s == [s[0]] + tail;
    }
  }

  /** A separator-free string stays free when a character is put in front,
      provided no occurrence starts at that character. */
  lemma ConsFree(x: char, p: string, sep: string)
    requires sep != [] && !Contains(p, sep) && !MatchAt([x] + p, sep, 0)
    ensures !Contains([x] + p, sep)
  {
    var head := [x] + p;
    assert head[1..] == p;
    forall i: nat | MatchAt(head, sep, i)
      ensures false
    {
      MatchAtTail(head, sep, i - 1);
    }
  }

  /** The first piece of a split is a prefix of the string. */
  lemma {:induction false} SplitOnHeadIsPrefix(s: string, sep: string)
    requires sep != []
    ensures SplitOn(s, sep)[0] <= s
    decreases |s|
  {
    if |s| >= |sep| && s[..|sep|] != sep {
      SplitOnAtOther(s, sep);
      SplitOnHeadIsPrefix(s[1..], sep);
      assert s == [s[0]] + s[1..];
    }
  }

  /** No piece of a split contains the separator: every occurrence was cut. */
  lemma {:induction false} SplitOnPiecesAreFree(s: string, sep: string)
    requires sep != []
    ensures forall k :: 0 <= k < |SplitOn(s, sep)| ==> !Contains(SplitOn(s, sep)[k], sep)
    decreases |s|
  {
    var pieces := SplitOn(s, sep);
    if |s| < |sep| {
      assert pieces == [s];
      assert !Contains(s, sep);
    } else if s[..|sep|] == sep {
      var rest := SplitOn(s[|sep|..], sep);
      SplitOnPiecesAreFree(s[|sep|..], sep);
      SplitOnAtMatch(s, sep);
      assert !Contains([], sep);
      forall k | 0 <= k < |pieces|
        ensures !Contains(pieces[k], sep)
      {
        if k > 0 {
          assert pieces[k] == rest[k - 1];
        }
      }
    } else {
      var rest := SplitOn(s[1..], sep);
      SplitOnPiecesAreFree(s[1..], sep);
      SplitOnAtOther(s, sep);
      SplitOnHeadIsPrefix(s[1..], sep);
      var head := [s[0]] + rest[0];
      assert !MatchAt(head, sep, 0) by {
        if |sep| <= |head| {
          assert head[..|sep|] == s[..|sep|];
        }
      }
      ConsFree(s[0], rest[0], sep);
      forall k | 0 <= k < |pieces|
        ensures !Contains(pieces[k], sep)
      {
        if k > 0 {
          assert pieces[k] == rest[k];
        }
      }
    }
  }

  /** No piece of a split on one character holds that character. */
  lemma SplitOnCharPiecesAreFree(s: string, c: char)
    ensures forall k :: 0 <= k < |SplitOn(s, [c])| ==> c !in SplitOn(s, [c])[k]
  {
    var pieces := SplitOn(s, [c]);
    SplitOnPiecesAreFree(s, [c]);
    forall k | 0 <= k < |pieces|
      ensures c !in pieces[k]
    {
      ContainsChar(pieces[k], c);
    }
  }

  /** Splitting on one character gives only empty pieces exactly when the
      string is made of that character alone. */
  lemma {:induction false} SplitOnAllEmpty(s: string, c: char)
    ensures (forall k :: 0 <= k < |SplitOn(s, [c])| ==> SplitOn(s, [c])[k] == [])
        <==> (forall i :: 0 <= i < |s| ==> s[i] == c)
    decreases |s|
  {
    if s != [] {
      var t := s[1..];
      assert s == [s[0]] + t;
      SplitOnCons(s[0], t, c);
      SplitOnAllEmpty(t, c);
      var pieces := SplitOn(s, [c]);
      if s[0] == c {
        var rest := SplitOn(t, [c]);
        assert pieces == [[]] + rest;
        assert (forall k :: 0 <= k < |pieces| ==> pieces[k] == [])
          <==> (forall k :: 0 <= k < |rest| ==> rest[k] == []) by {
          assert forall k :: 0 <= k < |rest| ==> rest[k] == pieces[k + 1];
        }
        assert (forall i :: 0 <= i < |s| ==> s[i] == c)
          <==> (forall i :: 0 <= i < |t| ==> t[i] == c) by {
          assert forall i :: 0 <= i < |t| ==> t[i] == s[i + 1];
        }
      } else {
        assert pieces[0] != [];
      }
    }
  }

  /** A string free of the separator splits into itself alone. */
  lemma {:induction false} SplitOnFree(s: string, sep: string)
    requires sep != []
    requires !Contains(s, sep)
    ensures SplitOn(s, sep) == [s]
    decreases |s|
  {
    if |s| < |sep| {
    } else {
      assert !MatchAt(s, sep, 0);
      ContainsTail(s, sep);
      SplitOnFree(s[1..], sep);
      assert s == [s[0]] + s[1..];
    }
  }

  lemma SplitOnAtMatch(s: string, sep: string)
    requires sep != [] && |sep| <= |s| && s[..|sep|] == sep
    ensures SplitOn(s, sep) == [[]] + SplitOn(s[|sep|..], sep)
  {
  }

  lemma SplitOnAtOther(s: string, sep: string)
    requires sep != [] && |sep| <= |s| && s[..|sep|] != sep
    ensures SplitOn(s, sep) == [[s[0]] + SplitOn(s[1..], sep)[0]] + SplitOn(s[1..], sep)[1..]
  {
  }

  /** Extending the first piece of `left + right` extends the first piece of `left`. */
  lemma ExtendFirstPiece(x: char, left: seq<string>, right: seq<string>)
    requires left != []
    ensures [[x] + (left + right)[0]] + (left + right)[1..] == ([[x] + left[0]] + left[1..]) + right
  {
    assert (left + right)[0] == left[0];
    assert (left + right)[1..] == left[1..] + right;
  }

  /** Splitting on one character, unfolded at the first character. */
  lemma SplitOnCons(x: char, t: string, c: char)
    ensures SplitOn([x] + t, [c]) ==
      if x == c then [[]] + SplitOn(t, [c])
      else [[x] + SplitOn(t, [c])[0]] + SplitOn(t, [c])[1..]
  {
    var s := [x] + t;
    assert s[..1] == [x] && s[1..] == t;
    if x == c {
      SplitOnAtMatch(s, [c]);
    } else {
      SplitOnAtOther(s, [c]);
    }
  }

  /** Splitting on a one-character separator distributes over an occurrence of
      that character: the pieces left of it, then the pieces right of it. */
  lemma {:induction false} SplitOnSeparated(a: string, c: char, b: string)
    ensures SplitOn(a + [c] + b, [c]) == SplitOn(a, [c]) + SplitOn(b, [c])
    decreases |a|
  {
    if a == [] {
      assert a + [c] + b == [c] + b;
      SplitOnCons(c, b, c);
    } else {
      SplitOnSeparated(a[1..], c, b);
      SplitOnSeparatedCons(a[0], a[1..], c, b);
      assert [a[0]] + a[1..] == a;
    }
  }

  /** The inductive step of `SplitOnSeparated`: one more character in front. */
  lemma SplitOnSeparatedCons(x: char, a: string, c: char, b: string)
    requires SplitOn(a + [c] + b, [c]) == SplitOn(a, [c]) + SplitOn(b, [c])
    ensures SplitOn([x] + a + [c] + b, [c]) == SplitOn([x] + a, [c]) + SplitOn(b, [c])
  {
    var t := a + [c] + b;
    assert [x] + a + [c] + b == [x] + t;
    if x == c {
      SplitOnSeparatedAtSep(t, a, SplitOn(b, [c]), c);
    } else {
      SplitOnSeparatedAtOther(x, t, a, SplitOn(b, [c]), c);
    }
  }

  lemma SplitOnSeparatedAtSep(t: string, a: string, right: seq<string>, c: char)
    requires SplitOn(t, [c]) == SplitOn(a, [c]) + right
    ensures SplitOn([c] + t, [c]) == SplitOn([c] + a, [c]) + right
  {
    SplitOnCons(c, t, c);
    SplitOnCons(c, a, c);
    ConsAppend([], SplitOn(a, [c]), right);
  }

  lemma ConsAppend<T>(x: T, left: seq<T>, right: seq<T>)
    ensures [x] + (left + right) == ([x] + left) + right
  {
  }

  lemma SplitOnSeparatedAtOther(x: char, t: string, a: string, right: seq<string>, c: char)
    requires x != c
    requires SplitOn(t, [c]) == SplitOn(a, [c]) + right
    ensures SplitOn([x] + t, [c]) == SplitOn([x] + a, [c]) + right
  {
    SplitOnCons(x, t, c);
    SplitOnCons(x, a, c);
    ExtendFirstPiece(x, SplitOn(a, [c]), right);
  }

  lemma MatchAtTail(s: string, pat: string, i: nat)
    requires s != []
    ensures MatchAt(s[1..], pat, i) <==> MatchAt(s, pat, i + 1)
  {
    if i + 1 + |pat| <= |s| {
      assert s[1..][i..i + |pat|] == s[i + 1..i + 1 + |pat|];
    }
  }

  lemma ReplaceAllAtOther(s: string, pat: string, rep: string)
    requires pat != [] && |pat| <= |s| && s[..|pat|] != pat
    ensures ReplaceAll(s, pat, rep) == [s[0]] + ReplaceAll(s[1..], pat, rep)
  {
  }

  /** A prefix where no occurrence of `pat` starts is copied through unchanged. */
  lemma {:induction false} ReplaceAllKeepsPrefix(a: string, b: string, pat: string, rep: string)
    requires pat != []
    requires forall i: nat :: i < |a| ==> !MatchAt(a + b, pat, i)
    ensures ReplaceAll(a + b, pat, rep) == a + ReplaceAll(b, pat, rep)
    decreases |a|
  {
    if a != [] {
      var s := a + b;
      var t := a[1..] + b;
      assert s[1..] == t;
      forall i: nat | i < |a[1..]|
        ensures !MatchAt(t, pat, i)
      {
        MatchAtTail(s, pat, i);
      }
      ReplaceAllKeepsPrefix(a[1..], b, pat, rep);
      if |s| < |pat| {
        assert ReplaceAll(b, pat, rep) == b;
      } else {
        assert !MatchAt(s, pat, 0);
        ReplaceAllAtOther(s, pat, rep);
        var rb := ReplaceAll(b, pat, rep);
        assert s[0] == a[0];
        assert a == [a[0]] + a[1..];
        assert [a[0]] + (a[1..] + rb) == a + rb;
      }
    } else {
      assert a + b == b;
    }
  }

  /** A token whose first character does not occur again in it: two
      occurrences of such a token never overlap. */
  predicate FirstCharUnique(pat: string)
  {
    forall k :: 0 < k < |pat| ==> pat[k] != pat[0]
  }

  /** A string that lacks the token's first character has no occurrence of it. */
  lemma NotContainsWithoutFirstChar(s: string, pat: string)
    requires pat != [] && pat[0] !in s
    ensures !Contains(s, pat)
  {
    forall i: nat | i + |pat| <= |s|
      ensures !MatchAt(s, pat, i)
    {
      assert s[i..i + |pat|][0] == s[i];
    }
  }

  /** A replaced occurrence leaves the replacement in the result. */
  lemma {:induction false} ReplaceAllIntroduces(s: string, pat: string, rep: string)
    requires pat != []
    ensures Contains(s, pat) ==> Contains(ReplaceAll(s, pat, rep), rep)
    decreases |s|
  {
    if Contains(s, pat) {
      var i: nat :| MatchAt(s, pat, i);
      var r := ReplaceAll(s, pat, rep);
      if s[..|pat|] == pat {
        assert r[..|rep|] == rep;
        assert MatchAt(r, rep, 0);
      } else {
        assert i != 0;
        ReplaceAllAtOther(s, pat, rep);
        MatchAtTail(s, pat, i - 1);
        ReplaceAllIntroduces(s[1..], pat, rep);
        var j: nat :| MatchAt(ReplaceAll(s[1..], pat, rep), rep, j);
        assert r[1..] == ReplaceAll(s[1..], pat, rep);
        MatchAtTail(r, rep, j);
      }
    }
  }

  /** A single occurrence of a token whose first character is unique, between
      two parts that hold no occurrence of it, is replaced in place. */
  lemma ReplaceAllOnce(pre: string, post: string, pat: string, rep: string)
    requires pat != [] && FirstCharUnique(pat)
    requires !Contains(pre, pat) && !Contains(post, pat)
    ensures ReplaceAll(pre + pat + post, pat, rep) == pre + rep + post
  {
    var s := pre + (pat + post);
    forall i: nat | i < |pre|
      ensures !MatchAt(s, pat, i)
    {
      if i + |pat| <= |pre| {
        assert s[i..i + |pat|] == pre[i..i + |pat|];
        assert !MatchAt(pre, pat, i);
      } else {
        // an occurrence here would hold the token's first character at an inner position
        var k := |pre| - i;
        assert s[|pre|] == pat[0];
        if i + |pat| <= |s| {
          assert s[i..i + |pat|][k] == s[|pre|];
        }
        assert pat[k] != pat[0];
      }
    }
    assert pre + pat + post == s;
    ReplaceAllKeepsPrefix(pre, pat + post, pat, rep);
    ReplaceAllAtStart(post, pat, rep);
    ReplaceAllWithoutMatch(post, pat, rep);
  }

  /** Two successive replacements on a string holding one occurrence of each
      token, the first before the second: each is replaced in place, provided
      no other occurrence exists, counting those the first replacement brings in. */
  lemma ReplaceTwice(pre: string, mid: string, post: string, pat1: string, rep1: string, pat2: string, rep2: string)
    requires pat1 != [] && FirstCharUnique(pat1) && pat2 != [] && FirstCharUnique(pat2)
    requires !Contains(pre, pat1) && !Contains(mid + pat2 + post, pat1)
    requires !Contains(pre + rep1 + mid, pat2) && !Contains(post, pat2)
    ensures ReplaceAll(ReplaceAll(pre + pat1 + mid + pat2 + post, pat1, rep1), pat2, rep2)
      == pre + rep1 + mid + rep2 + post
  {
    assert pre + pat1 + mid + pat2 + post == pre + pat1 + (mid + pat2 + post);
    ReplaceAllOnce(pre, mid + pat2 + post, pat1, rep1);
    assert pre + rep1 + (mid + pat2 + post) == (pre + rep1 + mid) + pat2 + post;
    ReplaceAllOnce(pre + rep1 + mid, post, pat2, rep2);
  }

  /** An occurrence at the very start is replaced. */
  lemma ReplaceAllAtStart(b: string, pat: string, rep: string)
    requires pat != []
    ensures ReplaceAll(pat + b, pat, rep) == rep + ReplaceAll(b, pat, rep)
  {
    assert (pat + b)[..|pat|] == pat;
    assert (pat + b)[|pat|..] == b;
  }

  predicate IsUpper(c: char)
  {
    'A' <= c <= 'Z'
  }

  /** ASCII lower-casing of one character. */
  function Lower(c: char): char
  {
    if IsUpper(c) then (c as int + 32) as char else c
  }

  /** Ruby's `downcase` on ASCII text: every letter A-Z becomes its lower-case
      counterpart and every other character is kept. */
  function Downcase(s: string): (r: string)
    ensures |r| == |s|
    ensures forall i :: 0 <= i < |s| ==> r[i] == Lower(s[i])
    ensures forall i :: 0 <= i < |r| ==> !IsUpper(r[i])
    decreases |s|
  {
    if s == [] then [] else [Lower(s[0])] + Downcase(s[1..])
  }

  predicate IsDigit(c: char)
  {
    '0' <= c <= '9'
  }

  predicate AllDigits(s: string)
  {
    forall i :: 0 <= i < |s| ==> IsDigit(s[i])
  }

  function DigitChar(d: nat): char
    requires d < 10
  {
    ('0' as int + d) as char
  }

  function DigitValue(c: char): nat
    requires IsDigit(c)
  {
    c as int - '0' as int
  }

  /** The decimal digits of `n`, most significant first. */
  function NatToString(n: nat): (r: string)
    ensures r != [] && AllDigits(r)
    ensures (r[0] == '0') == (n == 0)
    ensures n == 0 ==> r == "0"
    decreases n
  {
    if n < 10 then [DigitChar(n)] else NatToString(n / 10) + [DigitChar(n % 10)]
  }

  /** Ruby's `Integer#to_s`: a minus sign before the digits of a negative
      number. Reading the text back gives the number. */
  function IntToString(i: int): (r: string)
    ensures r != []
    ensures (r[0] == '-') == (i < 0)
    ensures IsCanonicalIntString(r) && ParseInt(r) == i
  {
    if i < 0 then
      var digits := NatToString(-i);
      ParseNatToString(-i);
      assert ("-" + digits)[1..] == digits;
      "-" + digits
    else
      ParseNatToString(i);
      NatToString(i)
  }

  /** Decimal text of an integer: digits, possibly after a minus sign. */
  predicate IsIntString(s: string)
  {
    s != [] && if s[0] == '-' then AllDigits(s[1..]) else AllDigits(s)
  }

  /** The digits of a decimal integer text, after any minus sign. */
  function Digits(s: string): string
    requires IsIntString(s)
  {
    if s[0] == '-' then s[1..] else s
  }

  /** Decimal text as `Integer#to_s` writes it: at least one digit, no
      leading zero unless the number is zero, and no minus sign before zero. */
  predicate IsCanonicalIntString(s: string)
  {
    && IsIntString(s)
    && Digits(s) != []
    && (Digits(s)[0] == '0' ==> Digits(s) == "0")
    && (s[0] == '-' ==> Digits(s) != "0")
  }

  /** The integer a decimal text denotes. */
  function ParseInt(s: string): int
    requires IsIntString(s)
  {
    if s[0] == '-' then -(ParseNat(s[1..]) as int) else ParseNat(s)
  }

  /** The number a string of decimal digits denotes. */
  function ParseNat(s: string): nat
    requires AllDigits(s)
  {
    if s == [] then 0 else ParseNat(s[..|s| - 1]) * 10 + DigitValue(s[|s| - 1])
  }

  /** Reading back a rendered natural number gives the number. */
  lemma {:induction false} ParseNatToString(n: nat)
    ensures ParseNat(NatToString(n)) == n
    decreases n
  {
    var r := NatToString(n);
    if n >= 10 {
      ParseNatToString(n / 10);
      assert r[..|r| - 1] == NatToString(n / 10);
    }
  }

}
