/** The few string operations the bot relies on: `sep.join(parts)`, `s.split(c)`,
    `s.strip()`, case-insensitive substring search. Strings are sequences of
    characters; only ASCII whitespace and ASCII letters are given special meaning. */
module Text {

  // ---------------------------------------------------------------------------
  // Joining and splitting
  // ---------------------------------------------------------------------------

  /** `sep.join(parts)`: the parts with `sep` between each neighbouring pair. */
  function Join(parts: seq<string>, sep: string): string
  {
    if |parts| == 0 then ""
    else if |parts| == 1 then parts[0]
    else parts[0] + sep + Join(parts[1..], sep)
  }

  /** Position of the first occurrence of `c` in `s`. */
  function IndexOf(s: string, c: char): (i: nat)
    requires c in s
    ensures i < |s| && s[i] == c
    ensures c !in s[..i]
  {
    if s[0] == c then 0
    else
      var k := IndexOf(s[1..], c);
      assert s[1..][..k] == s[1..k + 1];
      assert s[..k + 1] == [s[0]] + s[1..k + 1];
      k + 1
  }

  /** The first occurrence is the only one with no earlier occurrence before it. */
  lemma IndexOfUnique(s: string, c: char, k: nat)
    requires k < |s| && s[k] == c && c !in s[..k]
    ensures IndexOf(s, c) == k
  {
    var i := IndexOf(s, c);
  }

  /** Splitting at the first occurrence of `c`. */
  lemma SplitAt(s: string, c: char, k: nat)
    requires k < |s| && s[k] == c && c !in s[..k]
    ensures Split(s, c) == [s[..k]] + Split(s[k + 1..], c)
  {
    IndexOfUnique(s, c, k);
  }

  /** `s.split(c)`: the maximal pieces of `s` between occurrences of `c`; a string
      with n occurrences has n + 1 pieces, and the empty string has one, empty, piece. */
  function Split(s: string, c: char): seq<string>
    decreases |s|
  {
    if c !in s then [s]
    else
      var i := IndexOf(s, c);
      [s[..i]] + Split(s[i + 1..], c)
  }

  /** There is at least one piece, and no piece contains the separator. */
  lemma {:induction false} SplitPieces(s: string, c: char)
    ensures |Split(s, c)| >= 1
    ensures forall i :: 0 <= i < |Split(s, c)| ==> c !in Split(s, c)[i]
    decreases |s|
  {
    if c in s {
      var i := IndexOf(s, c);
      SplitPieces(s[i + 1..], c);
      var r := Split(s, c);
      assert r == [s[..i]] + Split(s[i + 1..], c);
      forall k | 0 <= k < |r| ensures c !in r[k] {
        if k > 0 {
          assert r[k] == Split(s[i + 1..], c)[k - 1];
        }
      }
    }
  }

  /** Splitting loses nothing: joining the pieces with the separator gives back `s`. */
  lemma {:induction false} JoinSplit(s: string, c: char)
    ensures Join(Split(s, c), [c]) == s
    decreases |s|
  {
    if c in s {
      var i := IndexOf(s, c);
      var rest := s[i + 1..];
      JoinSplit(rest, c);
      assert Split(s, c) == [s[..i]] + Split(rest, c);
      assert Split(s, c)[1..] == Split(rest, c);
      assert s == s[..i] + [c] + rest;
    }
  }

  /** Splitting a joined string on the first character of the separator gives the
      parts back, each but the first still carrying the rest of the separator.
      `lead` stands for text already in front of the first part. */
  lemma {:induction false} SplitJoin(lead: string, parts: seq<string>, c: char, pad: string)
    requires |parts| >= 1
    requires c !in lead && c !in pad
    requires forall i :: 0 <= i < |parts| ==> c !in parts[i]
    ensures |Split(lead + Join(parts, [c] + pad), c)| == |parts|
    ensures Split(lead + Join(parts, [c] + pad), c)[0] == lead + parts[0]
    ensures forall i :: 1 <= i < |parts| ==>
              Split(lead + Join(parts, [c] + pad), c)[i] == pad + parts[i]
    decreases |parts|
  {
    var sep := [c] + pad;
    var head := lead + parts[0];
    NotInConcat(lead, parts[0], c);
    if |parts| == 1 {
      assert lead + Join(parts, sep) == head;
    } else {
      var tail := Join(parts[1..], sep);
      JoinAssoc(lead, parts, c, pad);
      SplitAfterHead(head, c, pad + tail);
      SplitJoin(pad, parts[1..], c, pad);
      SplitJoinTail(head, Split(pad + tail, c), parts, pad);
    }
  }

  lemma JoinAssoc(lead: string, parts: seq<string>, c: char, pad: string)
    requires |parts| >= 2
    ensures lead + Join(parts, [c] + pad)
            == (lead + parts[0]) + ([c] + (pad + Join(parts[1..], [c] + pad)))
  {
  }

  lemma SplitAfterHead(head: string, c: char, rest: string)
    requires c !in head
    ensures Split(head + ([c] + rest), c) == [head] + Split(rest, c)
  {
    var s := head + ([c] + rest);
    assert s[..|head|] == head;
    assert s[|head| + 1..] == rest;
    SplitAt(s, c, |head|);
  }

  lemma SplitJoinTail(head: string, rest: seq<string>, parts: seq<string>, pad: string)
    requires |parts| >= 2 && |rest| == |parts| - 1
    requires forall i :: 1 <= i < |parts| - 1 ==> rest[i] == pad + parts[1..][i]
    requires rest[0] == pad + parts[1]
    ensures |[head] + rest| == |parts| && ([head] + rest)[0] == head
    ensures forall i :: 1 <= i < |parts| ==> ([head] + rest)[i] == pad + parts[i]
  {
    forall i | 1 <= i < |parts|
      ensures ([head] + rest)[i] == pad + parts[i]
    {
      if i > 1 {
        assert rest[i - 1] == pad + parts[1..][i - 1];
      }
    }
  }

  /** A list joined with ", " and split again on ',' gives each element back once
      the pieces are stripped, provided no element holds a comma or has whitespace
      at either end. */
  lemma SplitStripJoin(parts: seq<string>)
    requires |parts| >= 1
    requires forall i :: 0 <= i < |parts| ==> ',' !in parts[i] && IsStripped(parts[i])
    ensures |Split(Join(parts, ", "), ',')| == |parts|
    ensures forall i :: 0 <= i < |parts| ==> Strip(Split(Join(parts, ", "), ',')[i]) == parts[i]
  {
    assert ", " == [','] + " ";
    assert "" + Join(parts, ", ") == Join(parts, ", ");
    SplitJoin("", parts, ',', " ");
    var r := Split(Join(parts, ", "), ',');
    forall i | 0 <= i < |parts| ensures Strip(r[i]) == parts[i] {
      if i == 0 {
        assert r[0] == "" + parts[0] + "";
        StripPadded("", parts[0], "");
      } else {
        assert r[i] == " " + parts[i] + "";
        StripPadded(" ", parts[i], "");
      }
    }
  }

  lemma NotInConcat(a: string, b: string, c: char)
    requires c !in a && c !in b
    ensures c !in a + b
  {
  }

  // ---------------------------------------------------------------------------
  // Stripping whitespace
  // ---------------------------------------------------------------------------

  /** The ASCII characters that `str.strip()` removes: tab, line feed, vertical
      tab, form feed, carriage return, the four separators U+001C to U+001F, and
      space. */
  predicate IsSpace(ch: char)
  {
    ('\t' <= ch <= '\r') || ('\U{001C}' <= ch <= '\U{001F}') || ch == ' '
  }

  predicate AllSpace(s: string)
  {
    forall i :: 0 <= i < |s| ==> IsSpace(s[i])
  }

  /** Neither end of `s` is whitespace. */
  predicate IsStripped(s: string)
  {
    |s| == 0 || (!IsSpace(s[0]) && !IsSpace(s[|s| - 1]))
  }

  /** `s.lstrip()`. */
  function StripLeft(s: string): string
    decreases |s|
  {
    if |s| > 0 && IsSpace(s[0]) then StripLeft(s[1..]) else s
  }

  /** `s.rstrip()`. */
  function StripRight(s: string): string
    decreases |s|
  {
    if |s| > 0 && IsSpace(s[|s| - 1]) then StripRight(s[..|s| - 1]) else s
  }

  /** `lstrip` drops the leading whitespace and nothing else. */
  lemma {:induction false} StripLeftShape(s: string)
    ensures |StripLeft(s)| <= |s| && StripLeft(s) == s[|s| - |StripLeft(s)|..]
    ensures AllSpace(s[..|s| - |StripLeft(s)|])
    ensures |StripLeft(s)| == 0 || !IsSpace(StripLeft(s)[0])
    decreases |s|
  {
    if |s| > 0 && IsSpace(s[0]) {
      StripLeftShape(s[1..]);
      var n := |s| - |StripLeft(s)|;
      assert s[1..][..n - 1] == s[1..n];
      assert s[..n] == [s[0]] + s[1..n];
    }
  }

  /** `rstrip` drops the trailing whitespace and nothing else. */
  lemma {:induction false} StripRightShape(s: string)
    ensures |StripRight(s)| <= |s| && StripRight(s) == s[..|StripRight(s)|]
    ensures AllSpace(s[|StripRight(s)|..])
    ensures |StripRight(s)| == 0 || !IsSpace(StripRight(s)[|StripRight(s)| - 1])
    decreases |s|
  {
    if |s| > 0 && IsSpace(s[|s| - 1]) {
      var t := s[..|s| - 1];
      StripRightShape(t);
      var n := |StripRight(s)|;
      assert s[n..] == t[n..] + [s[|s| - 1]];
    }
  }

  /** `s.strip()`. */
  function Strip(s: string): string
  {
    StripRight(StripLeft(s))
  }

  /** What `Strip` computes: a contiguous middle part of `s`, stripped, with only
      whitespace cut off on either side. */
  lemma StripShape(s: string) returns (i: nat, j: nat)
    ensures i <= j <= |s| && Strip(s) == s[i..j]
    ensures AllSpace(s[..i]) && AllSpace(s[j..])
    ensures IsStripped(Strip(s))
  {
    var l := StripLeft(s);
    var r := StripRight(l);
    StripLeftShape(s);
    StripRightShape(l);
    i := |s| - |l|;
    j := i + |r|;
    assert l[|r|..] == s[j..];
    assert r == l[..|r|] == s[i..j];
    if |r| > 0 {
      assert r[0] == l[0];
    }
  }

  /** Whitespace around an already stripped string is exactly what `Strip` removes. */
  lemma StripPadded(front: string, x: string, back: string)
    requires AllSpace(front) && AllSpace(back) && IsStripped(x)
    ensures Strip(front + x + back) == x
  {
    if |x| == 0 {
      assert front + x + back == (front + back) + "";
      StripLeftPadded(front + back, "");
    } else {
      assert front + x + back == front + (x + back);
      StripLeftPadded(front, x + back);
      StripRightPadded(x, back);
    }
  }

  lemma {:induction false} StripLeftPadded(front: string, rest: string)
    requires AllSpace(front) && (|rest| == 0 || !IsSpace(rest[0]))
    ensures StripLeft(front + rest) == rest
    decreases |front|
  {
    if |front| > 0 {
      assert (front + rest)[1..] == front[1..] + rest;
      StripLeftPadded(front[1..], rest);
    } else {
      assert front + rest == rest;
    }
  }

  lemma {:induction false} StripRightPadded(rest: string, back: string)
    requires AllSpace(back) && (|rest| == 0 || !IsSpace(rest[|rest| - 1]))
    ensures StripRight(rest + back) == rest
    decreases |back|
  {
    if |back| > 0 {
      var s := rest + back;
      assert s[..|s| - 1] == rest + back[..|back| - 1];
      StripRightPadded(rest, back[..|back| - 1]);
    } else {
      assert rest + back == rest;
    }
  }

  /** Stripping twice is stripping once. */
  lemma StripIdempotent(s: string)
    ensures Strip(Strip(s)) == Strip(s)
  {
    var _, _ := StripShape(s);
    StripPadded("", Strip(s), "");
    assert "" + Strip(s) + "" == Strip(s);
  }

  // ---------------------------------------------------------------------------
  // Case-insensitive substring search
  // ---------------------------------------------------------------------------

  /** ASCII lower-casing of one character. */
  function LowerChar(ch: char): (r: char)
    ensures 'A' <= ch <= 'Z' ==> 'a' <= r <= 'z' && r as int - ch as int == 32
    ensures !('A' <= ch <= 'Z') ==> r == ch
  {
    if 'A' <= ch <= 'Z' then (ch as int + 32) as char else ch
  }

  function Lower(s: string): (r: string)
    ensures |r| == |s|
    ensures forall i :: 0 <= i < |s| ==> r[i] == LowerChar(s[i])
  {
    seq(|s|, i requires 0 <= i < |s| => LowerChar(s[i]))
  }

  /** `t` occurs as a contiguous piece of `s`. */
  predicate IsSubstring(t: string, s: string)
  {
    exists i :: 0 <= i <= |s| - |t| && t <= s[i..]
  }

  /** The characters with a special meaning in a regular expression. */
  const RegexMeta: string := ".^$*+?{}[]\\|()"

  /** `s` has no regular-expression metacharacter, so as a pattern it matches
      only its own text: the domain on which the literal genre test below agrees
      with a regular-expression search. */
  predicate NoRegexMeta(s: string)
  {
    forall i :: 0 <= i < |s| ==> s[i] !in RegexMeta
  }

  /** The genre test: `t` occurs in `s` when both are lower-cased. */
  predicate ContainsIgnoringCase(s: string, t: string)
  {
    IsSubstring(Lower(t), Lower(s))
  }

  /** Lower-casing works character by character, so it distributes over
      concatenation. */
  lemma LowerConcat(a: string, b: string)
    ensures Lower(a + b) == Lower(a) + Lower(b)
  {
    assert forall i :: 0 <= i < |a + b| ==> Lower(a + b)[i] == (Lower(a) + Lower(b))[i];
  }

  /** Lower-casing a lower-cased string changes nothing. */
  lemma LowerIdempotent(s: string)
    ensures Lower(Lower(s)) == Lower(s)
  {
    assert forall i :: 0 <= i < |s| ==> Lower(Lower(s))[i] == Lower(s)[i];
  }

  /** The case of the text searched for does not matter. */
  lemma ContainsIgnoresTextCase(s: string, t: string)
    ensures ContainsIgnoringCase(s, Lower(t)) <==> ContainsIgnoringCase(s, t)
  {
    LowerIdempotent(t);
  }

  /** A string is found inside any string built around it. */
  lemma SubstringOfSurrounding(front: string, t: string, back: string)
    ensures IsSubstring(t, front + t + back)
  {
    var s := front + t + back;
    assert s[|front|..] == t + back;
    assert t <= s[|front|..];
  }

  /** Each part of a joined list stands somewhere inside the joined text. */
  lemma {:induction false} JoinAroundPart(parts: seq<string>, sep: string, i: nat)
    returns (front: string, back: string)
    requires i < |parts|
    ensures Join(parts, sep) == front + parts[i] + back
    decreases |parts|
  {
    if |parts| == 1 {
      front, back := "", "";
    } else if i == 0 {
      front, back := "", sep + Join(parts[1..], sep);
    } else {
      var f, b := JoinAroundPart(parts[1..], sep, i - 1);
      front, back := parts[0] + sep + f, b;
    }
  }

  /** A joined list contains each of its parts, ignoring case. */
  lemma JoinContainsPart(parts: seq<string>, sep: string, i: nat)
    requires i < |parts|
    ensures ContainsIgnoringCase(Join(parts, sep), parts[i])
  {
    var front, back := JoinAroundPart(parts, sep, i);
    LowerConcat(front, parts[i]);
    LowerConcat(front + parts[i], back);
    SubstringOfSurrounding(Lower(front), Lower(parts[i]), Lower(back));
  }

  /** A string contains itself, in any mixture of cases. */
  lemma ContainsItself(s: string)
    ensures ContainsIgnoringCase(s, s)
  {
    assert Lower(s) <= Lower(s)[0..];
  }
}
