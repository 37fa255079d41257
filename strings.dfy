/**
  Models of the PHP string and array built-ins the generators rely on:
  `explode`, `implode`, `str_replace`, `array_reverse`, `strtolower`,
  `ucwords` and `Str::contains`, with the facts about them that the rest
  of the model uses.
 */
module Strings {

  /** `p` is a prefix of `s`. */
  predicate IsPrefix(p: string, s: string) {
    |p| <= |s| && s[..|p|] == p
  }

  /** `s` ends with `p`. */
  predicate EndsWith(s: string, p: string) {
    |p| <= |s| && s[|s| - |p|..] == p
  }

  /** PHP truthiness of a string: only `""` and `"0"` are falsy. */
  predicate IsTruthy(s: string) {
    s != "" && s != "0"
  }

  /** `p` occurs somewhere in `s` (`str_contains`, `Str::contains` with one needle). */
  predicate Contains(s: string, p: string)
    ensures Contains(s, p) ==> |p| <= |s|
    decreases |s|
  {
    IsPrefix(p, s) || (|s| > 0 && Contains(s[1..], p))
  }

  /** `implode($sep, $parts)`. */
  function Join(parts: seq<string>, sep: string): (r: string)
    ensures |parts| > 0 ==> IsPrefix(parts[0], r)
    decreases |parts|
  {
    if |parts| == 0 then ""
    else if |parts| == 1 then parts[0]
    else parts[0] + sep + Join(parts[1..], sep)
  }

  /** `explode($sep, $s)` for a one-character separator: never empty, and no part holds the separator. */
  function Split(s: string, sep: char): (parts: seq<string>)
    ensures |parts| >= 1
    ensures forall k :: 0 <= k < |parts| ==> sep !in parts[k]
    decreases |s|
  {
    if |s| == 0 then [""]
    else
      var rest := Split(s[1..], sep);
      if s[0] == sep then [""] + rest
      else [[s[0]] + rest[0]] + rest[1..]
  }

  /** `array_reverse`. */
  function Reverse<T>(s: seq<T>): (r: seq<T>)
    ensures |r| == |s|
    ensures forall i :: 0 <= i < |s| ==> r[i] == s[|s| - 1 - i]
  {
    seq(|s|, i requires 0 <= i < |s| => s[|s| - 1 - i])
  }

  /**
    `str_replace($p, $r, $s)` for one non-empty search string: the subject is
    scanned from the left, every occurrence found is replaced, and the
    replacement text is not scanned again.
   */
  function ReplaceAll(s: string, p: string, r: string): (res: string)
    requires p != ""
    ensures !Contains(s, p) ==> res == s
    ensures r == p ==> res == s
    decreases |s|
  {
    if |s| < |p| then s
    else if s[..|p|] == p then r + ReplaceAll(s[|p|..], p, r)
    else [s[0]] + ReplaceAll(s[1..], p, r)
  }

  /** The text between the occurrences of `p` that `ReplaceAll` finds, in order. */
  function Pieces(s: string, p: string): (ps: seq<string>)
    requires p != ""
    ensures |ps| >= 1
    decreases |s|
  {
    if |s| < |p| then [s]
    else if s[..|p|] == p then [""] + Pieces(s[|p|..], p)
    else
      var rest := Pieces(s[1..], p);
      [[s[0]] + rest[0]] + rest[1..]
  }

  /** PCRE's `\s` without the UTF-8 flag: space, tab, line feed, vertical tab, form feed, carriage return. */
  predicate IsSpace(c: char) {
    c == ' ' || (9 <= c as int <= 13)
  }

  /** The delimiters of PHP's `ucwords` by default: space, tab, carriage return, line feed, form feed, vertical tab. */
  predicate IsWordDelimiter(c: char) {
    c == ' ' || (9 <= c as int <= 13)
  }

  /** PHP 8's locale-independent ASCII case mapping. */
  function LowerChar(c: char): char {
    if 'A' <= c <= 'Z' then (c as int + 32) as char else c
  }

  function UpperChar(c: char): char {
    if 'a' <= c <= 'z' then (c as int - 32) as char else c
  }

  /** `strtolower` (and `Str::lower` on the ASCII letters). */
  function Lower(s: string): (r: string)
    ensures |r| == |s|
    ensures forall i :: 0 <= i < |s| ==> r[i] == LowerChar(s[i])
  {
    seq(|s|, i requires 0 <= i < |s| => LowerChar(s[i]))
  }

  /** The character `ucwords` puts at position `i`: upper-cased when it starts a word. */
  function UcwordsAt(s: string, i: nat): char
    requires i < |s|
  {
    if i == 0 || IsWordDelimiter(s[i - 1]) then UpperChar(s[i]) else s[i]
  }

  /** `ucwords`: the first character and every character after a delimiter are upper-cased. */
  function Ucwords(s: string): (r: string)
    ensures |r| == |s|
    ensures forall i :: 0 <= i < |s| ==> r[i] == UcwordsAt(s, i)
  {
    seq(|s|, i requires 0 <= i < |s| => UcwordsAt(s, i))
  }

  // ---------------------------------------------------------------------
  // Sequences

  lemma {:induction false} ReverseReverse<T>(s: seq<T>)
    ensures Reverse(Reverse(s)) == s
  {
    var r := Reverse(Reverse(s));
    assert |r| == |s|;
    forall i | 0 <= i < |s| ensures r[i] == s[i] {
      assert r[i] == Reverse(s)[|s| - 1 - i];
    }
  }

  /** Reversing a prefix gives a suffix of the reversal. */
  lemma ReverseOfPrefix<T>(s: seq<T>, i: nat)
    requires i <= |s|
    ensures Reverse(s[..i]) == Reverse(s)[|s| - i..]
  {
    var a := Reverse(s[..i]);
    var b := Reverse(s)[|s| - i..];
    forall k | 0 <= k < i ensures a[k] == b[k] {
      ReverseOfPrefixAt(s, i, k);
    }
  }

  lemma ReverseOfPrefixAt<T>(s: seq<T>, i: nat, k: nat)
    requires k < i <= |s|
    ensures Reverse(s[..i])[k] == Reverse(s)[|s| - i + k]
  {
    var p := s[..i];
    assert Reverse(p)[k] == p[i - 1 - k];
    assert p[i - 1 - k] == s[i - 1 - k];
  }

  // ---------------------------------------------------------------------
  // implode and explode

  lemma JoinCons(x: string, parts: seq<string>, sep: string)
    requires |parts| >= 1
    ensures Join([x] + parts, sep) == x + sep + Join(parts, sep)
  {
    assert ([x] + parts)[1..] == parts;
  }

  lemma JoinGrowHead(x: string, parts: seq<string>, sep: string)
    requires |parts| >= 1
    ensures Join([x + parts[0]] + parts[1..], sep) == x + Join(parts, sep)
  {
    var q := [x + parts[0]] + parts[1..];
    if |parts| > 1 {
      assert q[1..] == parts[1..];
    }
  }

  /** Rejoining what `explode` produced gives back the input. */
  lemma {:induction false} SplitJoin(s: string, sep: char)
    ensures Join(Split(s, sep), [sep]) == s
    decreases |s|
  {
    if |s| > 0 {
      var rest := Split(s[1..], sep);
      SplitJoin(s[1..], sep);
      if s[0] == sep {
        JoinCons("", rest, [sep]);
      } else {
        JoinGrowHead([s[0]], rest, [sep]);
      }
      assert s == [s[0]] + s[1..];
    }
  }

  lemma {:induction false} SplitPrefix(a: string, t: string, sep: char)
    requires sep !in a
    ensures Split(a + t, sep) == [a + Split(t, sep)[0]] + Split(t, sep)[1..]
    decreases |a|
  {
    if |a| > 0 {
      assert (a + t)[1..] == a[1..] + t;
      assert (a + t)[0] == a[0];
      SplitPrefix(a[1..], t, sep);
      assert [a[0]] + (a[1..] + Split(t, sep)[0]) == a + Split(t, sep)[0];
    } else {
      assert a + t == t;
      assert a + Split(t, sep)[0] == Split(t, sep)[0];
      assert Split(t, sep) == [Split(t, sep)[0]] + Split(t, sep)[1..];
    }
  }

  /** Exploding the implosion of separator-free parts gives back the parts. */
  lemma {:induction false} JoinSplit(parts: seq<string>, sep: char)
    requires |parts| >= 1
    requires forall k :: 0 <= k < |parts| ==> sep !in parts[k]
    ensures Split(Join(parts, [sep]), sep) == parts
    decreases |parts|
  {
    if |parts| == 1 {
      SplitPrefix(parts[0], "", sep);
      assert parts[0] + "" == parts[0];
    } else {
      var tail := Join(parts[1..], [sep]);
      JoinSplit(parts[1..], sep);
      assert Join(parts, [sep]) == parts[0] + ([sep] + tail);
      SplitPrefix(parts[0], [sep] + tail, sep);
      assert ([sep] + tail)[1..] == tail;
      assert Split([sep] + tail, sep) == [""] + parts[1..];
      assert parts[0] + "" == parts[0];
      assert parts == [parts[0]] + parts[1..];
    }
  }

  // ---------------------------------------------------------------------
  // str_replace

  /** `str_replace` puts the replacement exactly where the search string was found, and nowhere else. */
  lemma {:induction false} ReplaceAllJoinsPieces(s: string, p: string, r: string)
    requires p != ""
    ensures ReplaceAll(s, p, r) == Join(Pieces(s, p), r)
    decreases |s|
  {
    if |s| >= |p| {
      if s[..|p|] == p {
        ReplaceAllJoinsPieces(s[|p|..], p, r);
        ReplaceAtOccurrence(s, p, r);
      } else {
        ReplaceAllJoinsPieces(s[1..], p, r);
        ReplaceAwayFromOccurrence(s, p, r);
      }
    }
  }

  lemma ReplaceAtOccurrence(s: string, p: string, r: string)
    requires p != "" && |s| >= |p| && s[..|p|] == p
    requires ReplaceAll(s[|p|..], p, r) == Join(Pieces(s[|p|..], p), r)
    ensures ReplaceAll(s, p, r) == Join(Pieces(s, p), r)
  {
    var rest := Pieces(s[|p|..], p);
    assert Pieces(s, p) == [""] + rest;
    JoinCons("", rest, r);
    assert "" + r == r;
  }

  lemma ReplaceAwayFromOccurrence(s: string, p: string, r: string)
    requires p != "" && |s| >= |p| && s[..|p|] != p
    requires ReplaceAll(s[1..], p, r) == Join(Pieces(s[1..], p), r)
    ensures ReplaceAll(s, p, r) == Join(Pieces(s, p), r)
  {
    var rest := Pieces(s[1..], p);
    assert Pieces(s, p) == [[s[0]] + rest[0]] + rest[1..];
    JoinGrowHead([s[0]], rest, r);
  }

  /** Replacing the search string by itself changes nothing. */
  lemma {:induction false} ReplaceAllSelf(s: string, p: string)
    requires p != ""
    ensures ReplaceAll(s, p, p) == s
    decreases |s|
  {
    if |s| >= |p| {
      if s[..|p|] == p {
        ReplaceAllSelf(s[|p|..], p);
        assert s == s[..|p|] + s[|p|..];
      } else {
        ReplaceAllSelf(s[1..], p);
        assert s == [s[0]] + s[1..];
      }
    }
  }

  /** So the pieces and the occurrences together are the whole subject. */
  lemma PiecesRejoin(s: string, p: string)
    requires p != ""
    ensures Join(Pieces(s, p), p) == s
  {
    ReplaceAllJoinsPieces(s, p, p);
    ReplaceAllSelf(s, p);
  }

  lemma {:induction false} PiecesHeadIsPrefix(s: string, p: string)
    requires p != ""
    ensures IsPrefix(Pieces(s, p)[0], s)
    decreases |s|
  {
    if |s| >= |p| && s[..|p|] != p {
      PiecesHeadIsPrefix(s[1..], p);
      var h := Pieces(s[1..], p)[0];
      assert s[1..][..|h|] == h;
      assert ([s[0]] + h) == s[..|h| + 1];
    }
  }

  lemma {:induction false} ShortNoContains(s: string, p: string)
    requires |s| < |p|
    ensures !Contains(s, p)
    decreases |s|
  {
    if |s| > 0 { ShortNoContains(s[1..], p); }
  }

  lemma ConsContains(c: char, t: string, p: string)
    ensures Contains([c] + t, p) <==> IsPrefix(p, [c] + t) || Contains(t, p)
  {
    assert ([c] + t)[1..] == t;
  }

  /** No piece contains the search string: every occurrence was replaced. */
  lemma {:induction false} PiecesAvoidPattern(s: string, p: string)
    requires p != ""
    ensures forall k :: 0 <= k < |Pieces(s, p)| ==> !Contains(Pieces(s, p)[k], p)
    decreases |s|
  {
    if |s| < |p| {
      ShortNoContains(s, p);
    } else if s[..|p|] == p {
      PiecesAvoidPattern(s[|p|..], p);
      ShortNoContains("", p);
    } else {
      var rest := Pieces(s[1..], p);
      PiecesAvoidPattern(s[1..], p);
      PiecesHeadIsPrefix(s[1..], p);
      var h := [s[0]] + rest[0];
      assert h == s[..|rest[0]| + 1];
      ConsContains(s[0], rest[0], p);
      var ps := Pieces(s, p);
      assert ps == [h] + rest[1..];
      forall k | 0 <= k < |ps| ensures !Contains(ps[k], p) {
        if k > 0 { assert ps[k] == rest[k]; }
      }
    }
  }

  /** A subject without the search string comes back unchanged. */
  lemma {:induction false} ReplaceAllAbsent(s: string, p: string, r: string)
    requires p != ""
    requires !Contains(s, p)
    ensures ReplaceAll(s, p, r) == s
    decreases |s|
  {
    if |s| >= |p| {
      assert s[..|p|] != p;
      ReplaceAllAbsent(s[1..], p, r);
      assert s == [s[0]] + s[1..];
    }
  }

  /** A text lacking one of the characters of `p` does not contain `p`. */
  lemma {:induction false} MissingCharAbsent(s: string, p: string, i: nat)
    requires i < |p| && p[i] !in s
    ensures !Contains(s, p)
    decreases |s|
  {
    if |p| <= |s| {
      assert s[..|p|][i] == s[i];
    }
    if |s| > 0 {
      assert forall c :: c in s[1..] ==> c in s;
      MissingCharAbsent(s[1..], p, i);
    }
  }

  /** A subject that is exactly the search string becomes exactly the replacement. */
  lemma ReplaceAllWhole(p: string, r: string)
    requires p != ""
    ensures ReplaceAll(p, p, r) == r
  {
    assert p[..|p|] == p;
    assert p[|p|..] == "";
  }

  /** With a one-character search and replacement, `str_replace` maps characters one by one. */
  lemma {:induction false} ReplaceAllChar(s: string, c: char, d: char)
    ensures |ReplaceAll(s, [c], [d])| == |s|
    ensures forall i :: 0 <= i < |s| ==>
      ReplaceAll(s, [c], [d])[i] == if s[i] == c then d else s[i]
    decreases |s|
  {
    if |s| > 0 {
      ReplaceAllChar(s[1..], c, d);
      var r := ReplaceAll(s, [c], [d]);
      var t := ReplaceAll(s[1..], [c], [d]);
      assert s[..1] == [s[0]];
      assert s[..1] == [c] <==> s[0] == c;
      assert r == (if s[0] == c then [d] else [s[0]]) + t;
      forall i | 0 <= i < |s| ensures r[i] == if s[i] == c then d else s[i] {
        if i > 0 { assert r[i] == t[i - 1]; }
      }
    }
  }

  lemma ContainsAt(s: string, p: string, i: nat)
    requires i + |p| <= |s| && s[i..i + |p|] == p
    ensures Contains(s, p)
    decreases i
  {
    if i > 0 {
      assert s[1..][i - 1..i - 1 + |p|] == s[i..i + |p|];
      ContainsAt(s[1..], p, i - 1);
    }
  }

  /** A string contains everything written in the middle of it. */
  lemma ContainsMiddle(a: string, b: string, c: string)
    ensures Contains(a + b + c, b)
  {
    var s := a + b + c;
    assert s[|a|..|a| + |b|] == b;
    ContainsAt(s, b, |a|);
  }

  /** An occurrence inside the middle part of a concatenation is an occurrence in the whole. */
  lemma {:induction false} ContainsWithin(a: string, b: string, c: string, p: string)
    requires Contains(b, p)
    ensures Contains(a + b + c, p)
    decreases |a|
  {
    if |a| == 0 {
      assert a + b + c == b + c;
      ContainsExtends(b, c, p);
    } else {
      ContainsWithin(a[1..], b, c, p);
      assert (a + b + c)[1..] == a[1..] + b + c;
    }
  }

  lemma {:induction false} ContainsExtends(b: string, c: string, p: string)
    requires Contains(b, p)
    ensures Contains(b + c, p)
    decreases |b|
  {
    if IsPrefix(p, b) {
      assert (b + c)[..|p|] == b[..|p|];
    } else {
      ContainsExtends(b[1..], c, p);
      assert (b + c)[1..] == b[1..] + c;
    }
  }

  /**
    The first part of `explode` is the text before the first separator; the
    other parts are the explosion of what follows that separator.
   */
  lemma {:induction false} SplitHead(s: string, sep: char)
    ensures var h := Split(s, sep)[0];
      |h| <= |s| && s[..|h|] == h && sep !in h &&
      (|h| == |s| || s[|h|] == sep) &&
      (|h| == |s| ==> Split(s, sep) == [s]) &&
      (|h| < |s| ==> Split(s, sep)[1..] == Split(s[|h| + 1..], sep))
    decreases |s|
  {
    if |s| > 0 && s[0] != sep {
      SplitHead(s[1..], sep);
      var h := Split(s[1..], sep)[0];
      assert Split(s, sep)[0] == [s[0]] + h;
      assert s[..|h| + 1] == [s[0]] + s[1..][..|h|];
      if |h| < |s| - 1 {
        assert s[1..][|h| + 1..] == s[|h| + 2..];
      } else {
        assert s == [s[0]] + s[1..];
      }
    }
  }

  /** Appending a part to an `implode` adds one separator and that part at the end. */
  lemma {:induction false} JoinSnoc(parts: seq<string>, x: string, sep: string)
    ensures Join(parts + [x], sep) == if |parts| == 0 then x else Join(parts, sep) + sep + x
    decreases |parts|
  {
    if |parts| == 1 {
      assert parts + [x] == [parts[0], x];
    } else if |parts| > 1 {
      assert (parts + [x])[1..] == parts[1..] + [x];
      JoinSnoc(parts[1..], x, sep);
    } else {
      assert parts + [x] == [x];
    }
  }

  /** `implode` of a non-empty list starts with the first part and ends with the last. */
  lemma {:induction false} JoinEnds(parts: seq<string>, sep: string)
    requires |parts| > 0
    ensures IsPrefix(parts[0], Join(parts, sep))
    ensures EndsWith(Join(parts, sep), parts[|parts| - 1])
    decreases |parts|
  {
    if |parts| > 1 {
      JoinEnds(parts[1..], sep);
      var tail := Join(parts[1..], sep);
      AppendKeepsStart(parts[0], sep + tail);
      AppendKeepsEnd(sep, tail, parts[|parts| - 1]);
      AppendKeepsEnd(parts[0], sep + tail, parts[|parts| - 1]);
    }
  }

  lemma AppendKeepsStart<T>(a: seq<T>, b: seq<T>)
    ensures (a + b)[..|a|] == a
  {
  }

  lemma AppendKeepsEnd<T>(x: seq<T>, j: seq<T>, e: seq<T>)
    requires |e| <= |j| && j[|j| - |e|..] == e
    ensures |e| <= |x + j| && (x + j)[|x + j| - |e|..] == e
  {
    assert (x + j)[|x + j| - |e|..] == j[|j| - |e|..];
  }
}
