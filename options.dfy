/**
  Column options as both schema parsers build them (`parseOptions`,
  src/Migrations/SchemaParser.php:71-86 and src/MigrationSchemaParser.php:63-78,
  whose bodies are the same). The PHP result is an array used as an ordered
  dictionary; here it is an association list with PHP's assignment rule:
  writing an existing key replaces its value in place, writing a new key
  appends it.
 */
module SchemaOptions {
  import opened Wrappers
  import opened Strings

  /** An option's value: `true` for a bare flag, or the raw text between the parentheses. */
  datatype OptVal = Flag | Lit(value: string)

  type Options = seq<(string, OptVal)>

  /** The message PHP raises when `$matches[1]` is read after a failed `preg_match`. */
  const UndefinedMatch: string := "Undefined array key 1"

  function Keys<K, V>(m: seq<(K, V)>): (ks: seq<K>)
    ensures |ks| == |m|
    ensures forall i :: 0 <= i < |m| ==> ks[i] == m[i].0
    decreases |m|
  {
    if |m| == 0 then [] else [m[0].0] + Keys(m[1..])
  }

  predicate UniqueKeys<K(==), V>(m: seq<(K, V)>) {
    forall i, j :: 0 <= i < j < |m| ==> m[i].0 != m[j].0
  }

  /** `$results[$k] ?? null`. */
  function Lookup<K(==), V>(m: seq<(K, V)>, k: K): Option<V>
    decreases |m|
  {
    if |m| == 0 then None
    else if m[0].0 == k then Some(m[0].1)
    else Lookup(m[1..], k)
  }

  /** `$results[$k] = $v`: an existing key keeps its position and takes the new value; a new key goes last. */
  function Put<K(==,!new), V>(m: seq<(K, V)>, k: K, v: V): (r: seq<(K, V)>)
    ensures Keys(r) == if k in Keys(m) then Keys(m) else Keys(m) + [k]
    decreases |m|
  {
    if |m| == 0 then [(k, v)]
    else if m[0].0 == k then [(k, v)] + m[1..]
    else
      var rest := Put(m[1..], k, v);
      assert ([m[0]] + rest)[1..] == rest;
      [m[0]] + rest
  }

  /** The key just written reads back the new value. */
  lemma {:induction false} PutReadsBack<K(!new), V>(m: seq<(K, V)>, k: K, v: V)
    ensures Lookup(Put(m, k, v), k) == Some(v)
    decreases |m|
  {
    if |m| > 0 && m[0].0 != k {
      PutReadsBack(m[1..], k, v);
      assert ([m[0]] + Put(m[1..], k, v))[1..] == Put(m[1..], k, v);
    }
  }

  /** Writing a key never creates a duplicate. */
  lemma PutKeepsUnique<K(!new), V>(m: seq<(K, V)>, k: K, v: V)
    requires UniqueKeys(m)
    ensures UniqueKeys(Put(m, k, v))
  {
    var r := Put(m, k, v);
    var ks := Keys(r);
    forall i, j | 0 <= i < j < |r| ensures r[i].0 != r[j].0 {
      assert ks[i] == r[i].0 && ks[j] == r[j].0;
      if k !in Keys(m) && j == |m| {
        assert ks[i] == Keys(m)[i] == m[i].0;
      } else {
        assert ks[i] == m[i].0 && ks[j] == m[j].0;
      }
    }
  }

  /** Writing one key leaves every other key's value as it was. */
  lemma {:induction false} PutKeepsOthers<K(!new), V>(m: seq<(K, V)>, k: K, v: V, other: K)
    requires other != k
    ensures Lookup(Put(m, k, v), other) == Lookup(m, other)
    decreases |m|
  {
    if |m| > 0 && m[0].0 != k {
      PutKeepsOthers(m[1..], k, v, other);
      assert ([m[0]] + Put(m[1..], k, v))[1..] == Put(m[1..], k, v);
    }
  }

  // ---------------------------------------------------------------------
  // The option regex `/([a-z]+)\(([^\)]+)\)/i`

  predicate IsLetter(c: char) {
    ('a' <= c <= 'z') || ('A' <= c <= 'Z')
  }

  /**
    The regex can match with its `(` at position `q`: a letter before it, a
    character other than `)` after it, and a `)` somewhere later.
   */
  predicate OpensOption(t: string, q: nat) {
    0 < q && q + 1 < |t| && t[q] == '(' && IsLetter(t[q - 1]) && t[q + 1] != ')' && ')' in t[q + 1..]
  }

  /** Where the run of letters that ends just before `q` begins. */
  function LetterRunStart(t: string, q: nat): (s: nat)
    requires q <= |t|
    ensures s <= q
    ensures forall i :: s <= i < q ==> IsLetter(t[i])
    ensures s == 0 || !IsLetter(t[s - 1])
  {
    if q == 0 || !IsLetter(t[q - 1]) then q else LetterRunStart(t, q - 1)
  }

  /** The first position of `c` in `s`. */
  function FirstIndex(s: string, c: char): (i: nat)
    requires c in s
    ensures i < |s| && s[i] == c && forall j :: 0 <= j < i ==> s[j] != c
  {
    if s[0] == c then 0 else FirstIndex(s[1..], c) + 1
  }

  /** The first position at or after `q` where the regex can match. */
  function FirstOpen(t: string, q: nat): (r: Option<nat>)
    ensures r.None? ==> forall p :: q <= p < |t| ==> !OpensOption(t, p)
    ensures r.Some? ==> q <= r.value < |t| && OpensOption(t, r.value)
    ensures r.Some? ==> forall p :: q <= p < r.value ==> !OpensOption(t, p)
    decreases |t| - q
  {
    if q >= |t| then None
    else if OpensOption(t, q) then Some(q)
    else FirstOpen(t, q + 1)
  }

  /**
    The leftmost match as `(matches[1], matches[2])`. It starts where the
    letter run before the first usable `(` begins; the greedy `[^\)]+` then
    stops at the first `)`.
   */
  function OptionMatch(t: string): Option<(string, string)> {
    match FirstOpen(t, 0)
      case None => None
      case Some(p) => Some(OptionGroups(t, p))
  }

  /** The two groups of the match whose `(` is at `p`. */
  function OptionGroups(t: string, p: nat): (string, string)
    requires OpensOption(t, p)
  {
    (t[LetterRunStart(t, p)..p], t[p + 1..p + 1 + FirstIndex(t[p + 1..], ')')])
  }

  /** One option token as `parseOptions` stores it, or the error PHP raises on a failed match. */
  function OptionEntry(token: string): Result<(string, OptVal)> {
    if '(' !in token then Ok((token, Flag))
    else match OptionMatch(token)
      case None => Err(UndefinedMatch)
      case Some(kv) => Ok((kv.0, Lit(kv.1)))
  }

  /** What `parseOptions` returns for the option tokens of one field, stopping at the first error. */
  function ParseOptionsSpec(tokens: seq<string>): Result<Options>
    decreases |tokens|
  {
    if |tokens| == 0 then Ok([])
    else match ParseOptionsSpec(tokens[..|tokens| - 1])
      case Err(e) => Err(e)
      case Ok(m) =>
        match OptionEntry(tokens[|tokens| - 1])
          case Err(e) => Err(e)
          case Ok(kv) => Ok(Put(m, kv.0, kv.1))
  }

  /** `parseOptions`: the `foreach` that fills `$results`. */
  method ParseOptions(tokens: seq<string>) returns (r: Result<Options>)
    ensures r == ParseOptionsSpec(tokens)
  {
    if |tokens| == 0 {
      return Ok([]);
    }
    var results: Options := [];
    var i := 0;
    while i < |tokens|
      invariant 0 <= i <= |tokens|
      invariant ParseOptionsSpec(tokens[..i]) == Ok(results)
    {
      assert tokens[..i + 1][..i] == tokens[..i];
      var option := tokens[i];
      if '(' in option {
        var m := OptionMatch(option);
        if m.None? {
          ErrorPersists(tokens, i + 1);
          return Err(UndefinedMatch);
        }
        results := Put(results, m.value.0, Lit(m.value.1));
      } else {
        results := Put(results, option, Flag);
      }
      i := i + 1;
    }
    assert tokens[..i] == tokens;
    r := Ok(results);
  }

  // ---------------------------------------------------------------------
  // Properties

  /** A token without `(` is a flag under its own name, and no tokens give no options. */
  lemma FlagTokens(token: string)
    ensures '(' !in token ==> OptionEntry(token) == Ok((token, Flag))
    ensures ParseOptionsSpec([]) == Ok([])
  {
  }

  /** Once a prefix of the tokens fails, the whole list fails with the same error. */
  lemma {:induction false} ErrorPersists(tokens: seq<string>, i: nat)
    requires i <= |tokens| && ParseOptionsSpec(tokens[..i]).Err?
    ensures ParseOptionsSpec(tokens) == ParseOptionsSpec(tokens[..i])
    decreases |tokens| - i
  {
    if i < |tokens| {
      assert tokens[..i + 1][..i] == tokens[..i];
      ErrorPersists(tokens, i + 1);
    } else {
      assert tokens[..i] == tokens;
    }
  }

  /** The leftmost match is a letters-only key and a non-empty value free of `)`, written `key(value)` inside the token. */
  lemma OptionMatchShape(t: string)
    requires OptionMatch(t).Some?
    ensures var (k, v) := OptionMatch(t).value;
      |k| > 0 && (forall i :: 0 <= i < |k| ==> IsLetter(k[i])) &&
      |v| > 0 && ')' !in v &&
      Contains(t, k + "(" + v + ")")
  {
    var (k, v) := OptionMatch(t).value;
    var p := FirstOpen(t, 0).value;
    var s := LetterRunStart(t, p);
    var e := FirstIndex(t[p + 1..], ')');
    assert e > 0;
    assert v == t[p + 1..][..e];
    assert t[s..p + e + 2] == k + "(" + v + ")";
    ContainsAt(t, k + "(" + v + ")", s);
  }

  /** A token written `key(value)`, with a letters-only key and a value free of `)`, stores that key and value. */
  lemma OptionOfShape(k: string, v: string, rest: string)
    requires |k| > 0 && forall i :: 0 <= i < |k| ==> IsLetter(k[i])
    requires |v| > 0 && ')' !in v
    ensures OptionEntry(k + "(" + v + ")" + rest) == Ok((k, Lit(v)))
  {
    var t := k + "(" + v + ")" + rest;
    ShapeChars(k, v, rest, t);
    EntryOfChars(t, |k|, |v|);
  }

  /** The entry stored for a token whose characters have the `key(value)` shape. */
  lemma EntryOfChars(t: string, q: nat, e: nat)
    requires 0 < q && q + 1 + e < |t| && e > 0
    requires forall i :: 0 <= i < q ==> IsLetter(t[i])
    requires t[q] == '(' && t[q + 1 + e] == ')'
    requires forall i :: q < i < q + 1 + e ==> t[i] != ')'
    ensures OptionEntry(t) == Ok((t[..q], Lit(t[q + 1..q + 1 + e])))
  {
    MatchOfShape(t, q, e);
    EntryOfMatch(t, t[..q], t[q + 1..q + 1 + e]);
  }

  /** The characters of `key(value)rest`, position by position. */
  lemma ShapeChars(k: string, v: string, rest: string, t: string)
    requires |k| > 0 && forall i :: 0 <= i < |k| ==> IsLetter(k[i])
    requires |v| > 0 && ')' !in v
    requires t == k + "(" + v + ")" + rest
    ensures |k| + 1 + |v| < |t|
    ensures forall i :: 0 <= i < |k| ==> IsLetter(t[i])
    ensures t[|k|] == '(' && t[|k| + 1 + |v|] == ')'
    ensures forall i :: |k| < i < |k| + 1 + |v| ==> t[i] != ')'
    ensures t[..|k|] == k && t[|k| + 1..|k| + 1 + |v|] == v
  {
    var q := |k|;
    forall i | q < i < q + 1 + |v| ensures t[i] != ')' {
      assert t[i] == v[i - q - 1];
    }
    assert t[..q] == k;
    assert t[q + 1..q + 1 + |v|] == v;
  }

  /** The characters of a `key(value)` token: letters up to `q`, a `(`, `e` characters other than `)`, then `)`. */
  lemma MatchOfShape(t: string, q: nat, e: nat)
    requires 0 < q && q + 1 + e < |t| && e > 0
    requires forall i :: 0 <= i < q ==> IsLetter(t[i])
    requires t[q] == '(' && t[q + 1 + e] == ')'
    requires forall i :: q < i < q + 1 + e ==> t[i] != ')'
    ensures '(' in t && OptionMatch(t) == Some((t[..q], t[q + 1..q + 1 + e]))
  {
    var u := t[q + 1..];
    assert u[e] == ')';
    assert forall j :: 0 <= j < e ==> u[j] != ')';
    assert OpensOption(t, q);
    NoOpenAmongLetters(t, q);
    FirstOpenAt(t, q);
    LetterRunFrom(t, q);
    OptionMatchAt(t, q, e);
  }

  lemma EntryOfMatch(t: string, k: string, v: string)
    requires '(' in t && OptionMatch(t) == Some((k, v))
    ensures OptionEntry(t) == Ok((k, Lit(v)))
  {
  }

  lemma OptionMatchAt(t: string, q: nat, e: nat)
    requires q < |t| && FirstOpen(t, 0) == Some(q) && LetterRunStart(t, q) == 0
    requires FirstIndex(t[q + 1..], ')') == e
    ensures OptionMatch(t) == Some((t[..q], t[q + 1..q + 1 + e]))
  {
    assert OptionMatch(t) == Some(OptionGroups(t, q));
    GroupsAt(t, q, e);
  }

  lemma GroupsAt(t: string, q: nat, e: nat)
    requires OpensOption(t, q) && LetterRunStart(t, q) == 0
    requires FirstIndex(t[q + 1..], ')') == e
    ensures OptionGroups(t, q) == (t[..q], t[q + 1..q + 1 + e])
  {
    assert t[0..q] == t[..q];
  }

  lemma NoOpenAmongLetters(t: string, q: nat)
    requires q <= |t| && forall i :: 0 <= i < q ==> IsLetter(t[i])
    ensures forall p :: 0 <= p < q ==> !OpensOption(t, p)
  {
  }

  /** The first usable `(` is where the scan stops. */
  lemma FirstOpenAt(t: string, q: nat)
    requires q < |t| && OpensOption(t, q)
    requires forall p :: 0 <= p < q ==> !OpensOption(t, p)
    ensures FirstOpen(t, 0) == Some(q)
  {
  }

  /** The letter run before the `(` of a `key(value)` token is the whole key. */
  lemma LetterRunFrom(t: string, q: nat)
    requires q <= |t| && forall i :: 0 <= i < q ==> IsLetter(t[i])
    ensures LetterRunStart(t, q) == 0
  {
  }

  /** A repeated key keeps its first place, and no two entries share a key. */
  lemma {:induction false} ParsedKeysUnique(tokens: seq<string>)
    requires ParseOptionsSpec(tokens).Ok?
    ensures UniqueKeys(ParseOptionsSpec(tokens).value)
    decreases |tokens|
  {
    if |tokens| > 0 {
      ParsedKeysUnique(tokens[..|tokens| - 1]);
      ParseSnoc(tokens);
      var kv := OptionEntry(tokens[|tokens| - 1]).value;
      PutKeepsUnique(ParseOptionsSpec(tokens[..|tokens| - 1]).value, kv.0, kv.1);
    }
  }

  /** A successful parse accepted every token. */
  lemma {:induction false} ParsedAllTokens(tokens: seq<string>)
    requires ParseOptionsSpec(tokens).Ok?
    ensures forall i :: 0 <= i < |tokens| ==> OptionEntry(tokens[i]).Ok?
    decreases |tokens|
  {
    if |tokens| > 0 {
      var init := tokens[..|tokens| - 1];
      ParsedAllTokens(init);
      forall i | 0 <= i < |tokens| ensures OptionEntry(tokens[i]).Ok? {
        if i < |tokens| - 1 { assert tokens[i] == init[i]; }
      }
    }
  }

  /** The value stored for a key is the one from the last token that names it. */
  lemma {:induction false} LastValueWins(tokens: seq<string>, i: nat)
    requires ParseOptionsSpec(tokens).Ok?
    requires i < |tokens|
    requires OptionEntry(tokens[i]).Ok?
    requires forall j :: i < j < |tokens| && OptionEntry(tokens[j]).Ok? ==>
      OptionEntry(tokens[j]).value.0 != OptionEntry(tokens[i]).value.0
    ensures Lookup(ParseOptionsSpec(tokens).value, OptionEntry(tokens[i]).value.0) == Some(OptionEntry(tokens[i]).value.1)
    decreases |tokens|
  {
    var n := |tokens|;
    var init := tokens[..n - 1];
    ParseSnoc(tokens);
    var kv := OptionEntry(tokens[n - 1]).value;
    if i < n - 1 {
      forall j | i < j < |init| && OptionEntry(init[j]).Ok?
        ensures OptionEntry(init[j]).value.0 != OptionEntry(init[i]).value.0
      {
        assert init[j] == tokens[j];
      }
      assert init[i] == tokens[i];
      LastValueWins(init, i);
      PutKeepsOthers(ParseOptionsSpec(init).value, kv.0, kv.1, OptionEntry(tokens[i]).value.0);
    } else {
      PutReadsBack(ParseOptionsSpec(init).value, kv.0, kv.1);
    }
  }

  /** A successful parse is the parse of all but the last token, with the last token's entry written into it. */
  lemma ParseSnoc(tokens: seq<string>)
    requires |tokens| > 0 && ParseOptionsSpec(tokens).Ok?
    ensures ParseOptionsSpec(tokens[..|tokens| - 1]).Ok? && OptionEntry(tokens[|tokens| - 1]).Ok?
    ensures var kv := OptionEntry(tokens[|tokens| - 1]).value;
      ParseOptionsSpec(tokens).value == Put(ParseOptionsSpec(tokens[..|tokens| - 1]).value, kv.0, kv.1)
  {
  }

  /** Some accepted token among `tokens` names the key `k`. */
  predicate NamedBy(tokens: seq<string>, k: string) {
    exists i :: 0 <= i < |tokens| && OptionEntry(tokens[i]).Ok? && OptionEntry(tokens[i]).value.0 == k
  }

  lemma NamedBySnoc(tokens: seq<string>, k: string)
    requires |tokens| > 0
    ensures NamedBy(tokens, k) <==>
      NamedBy(tokens[..|tokens| - 1], k) ||
      (OptionEntry(tokens[|tokens| - 1]).Ok? && OptionEntry(tokens[|tokens| - 1]).value.0 == k)
  {
    var init := tokens[..|tokens| - 1];
    if NamedBy(tokens, k) {
      var i :| 0 <= i < |tokens| && OptionEntry(tokens[i]).Ok? && OptionEntry(tokens[i]).value.0 == k;
      if i < |init| { assert init[i] == tokens[i]; }
    }
    if NamedBy(init, k) {
      var i :| 0 <= i < |init| && OptionEntry(init[i]).Ok? && OptionEntry(init[i]).value.0 == k;
      assert init[i] == tokens[i];
    }
  }

  /** A key is stored exactly when some token names it. */
  lemma {:induction false} KeysFromTokens(tokens: seq<string>, k: string)
    requires ParseOptionsSpec(tokens).Ok?
    ensures k in Keys(ParseOptionsSpec(tokens).value) <==> NamedBy(tokens, k)
    decreases |tokens|
  {
    if |tokens| > 0 {
      var init := tokens[..|tokens| - 1];
      var m := ParseOptionsSpec(init).value;
      var kv := OptionEntry(tokens[|tokens| - 1]).value;
      assert ParseOptionsSpec(tokens).value == Put(m, kv.0, kv.1);
      KeysFromTokens(init, k);
      NamedBySnoc(tokens, k);
    }
  }

  // ---------------------------------------------------------------------
  // Key order: first occurrences, as an independent definition

  /** `ks` with every `x` removed, in order. */
  function Without(ks: seq<string>, x: string): (r: seq<string>)
    ensures |r| <= |ks|
    ensures forall y :: y in r <==> y in ks && y != x
    decreases |ks|
  {
    if |ks| == 0 then []
    else (if ks[0] == x then [] else [ks[0]]) + Without(ks[1..], x)
  }

  /** The distinct names of `ks`, each where it first appears. */
  function Distinct(ks: seq<string>): seq<string>
    decreases |ks|
  {
    if |ks| == 0 then [] else [ks[0]] + Distinct(Without(ks[1..], ks[0]))
  }

  /** The key each token names, in token order. */
  function TokenKeys(tokens: seq<string>): (ks: seq<string>)
    requires forall i :: 0 <= i < |tokens| ==> OptionEntry(tokens[i]).Ok?
    ensures |ks| == |tokens|
  {
    seq(|tokens|, i requires 0 <= i < |tokens| && OptionEntry(tokens[i]).Ok? => OptionEntry(tokens[i]).value.0)
  }

  lemma {:induction false} WithoutSnoc(ks: seq<string>, y: string, x: string)
    ensures Without(ks + [y], x) == Without(ks, x) + (if y == x then [] else [y])
    decreases |ks|
  {
    if |ks| == 0 {
      assert [y][1..] == [];
    } else {
      assert (ks + [y])[1..] == ks[1..] + [y];
      WithoutSnoc(ks[1..], y, x);
    }
  }

  lemma {:induction false} DistinctMembers(ks: seq<string>, y: string)
    ensures y in Distinct(ks) <==> y in ks
    decreases |ks|
  {
    if |ks| > 0 {
      DistinctMembers(Without(ks[1..], ks[0]), y);
      assert ks == [ks[0]] + ks[1..];
    }
  }

  /** Appending a name adds it to the distinct names exactly when it is new. */
  lemma {:induction false} DistinctSnoc(ks: seq<string>, x: string)
    ensures Distinct(ks + [x]) == if x in ks then Distinct(ks) else Distinct(ks) + [x]
    decreases |ks|
  {
    if |ks| == 0 {
      assert Without([x][1..], x) == [];
    } else {
      var a := ks[0];
      var w := Without(ks[1..], a);
      assert (ks + [x])[0] == a && (ks + [x])[1..] == ks[1..] + [x];
      WithoutSnoc(ks[1..], x, a);
      assert Distinct(ks + [x]) == [a] + Distinct(Without(ks[1..] + [x], a));
      assert Distinct(ks) == [a] + Distinct(w);
      if x != a {
        DistinctSnoc(w, x);
        assert x in w <==> x in ks;
        assert Distinct(ks + [x]) == [a] + Distinct(w + [x]);
      } else {
        assert Without(ks[1..] + [x], a) == w;
      }
    }
  }

  lemma TokenKeysSnoc(tokens: seq<string>, init: seq<string>)
    requires |tokens| > 0 && forall i :: 0 <= i < |tokens| ==> OptionEntry(tokens[i]).Ok?
    requires init == tokens[..|tokens| - 1]
    ensures forall i :: 0 <= i < |init| ==> OptionEntry(init[i]).Ok?
    ensures TokenKeys(tokens) == TokenKeys(init) + [OptionEntry(tokens[|tokens| - 1]).value.0]
  {
    assert forall i :: 0 <= i < |init| ==> init[i] == tokens[i];
  }

  /** The stored keys are the tokens' keys in order of first appearance. */
  lemma {:induction false} KeysInFirstOccurrenceOrder(tokens: seq<string>)
    requires ParseOptionsSpec(tokens).Ok?
    requires forall i :: 0 <= i < |tokens| ==> OptionEntry(tokens[i]).Ok?
    ensures Keys(ParseOptionsSpec(tokens).value) == Distinct(TokenKeys(tokens))
    decreases |tokens|
  {
    if |tokens| > 0 {
      var init := tokens[..|tokens| - 1];
      var m := ParseOptionsSpec(init).value;
      var kv := OptionEntry(tokens[|tokens| - 1]).value;
      ParseSnoc(tokens);
      TokenKeysSnoc(tokens, init);
      KeysInFirstOccurrenceOrder(init);
      PutKeepsFirstOccurrenceOrder(m, kv.0, kv.1, TokenKeys(init));
    }
  }

  /** Storing a key extends the keys exactly as a new last key extends their first occurrences. */
  lemma PutKeepsFirstOccurrenceOrder(m: Options, k: string, v: OptVal, ks: seq<string>)
    requires Keys(m) == Distinct(ks)
    ensures Keys(Put(m, k, v)) == Distinct(ks + [k])
  {
    DistinctSnoc(ks, k);
    DistinctMembers(ks, k);
  }
}
