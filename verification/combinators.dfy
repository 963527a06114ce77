/** The nom combinators the parser is built from, on complete input. */
module Combinators {
  import opened Bytes
  import opened Options

  /** nom's `tag!(t)`: succeeds exactly when `t` starts the input, and consumes exactly `t`. */
  function Tag(t: seq<byte>, input: seq<byte>): (r: Option<(seq<byte>, seq<byte>)>)
    ensures r.Some? <==> t <= input
    ensures r.Some? ==> r.value.0 == t && t + r.value.1 == input
  {
    if t <= input then Some((t, input[|t|..])) else None
  }

  /** Every byte of `s` satisfies `p`. */
  predicate All(p: byte -> bool, s: seq<byte>) {
    forall i | 0 <= i < |s| :: p(s[i])
  }

  /** `run` is the longest non-empty prefix of `input` whose bytes satisfy `p`,
      and `rest` is what follows it. */
  predicate IsMaximalRun(p: byte -> bool, input: seq<byte>, run: seq<byte>, rest: seq<byte>) {
    run + rest == input && |run| > 0 && All(p, run) && (rest == [] || !p(rest[0]))
  }

  /** Number of leading bytes of `s` that satisfy `p`. */
  function Span(p: byte -> bool, s: seq<byte>): (n: nat)
    ensures n <= |s|
    ensures forall i | 0 <= i < n :: p(s[i])
    ensures n < |s| ==> !p(s[n])
  {
    if s == [] || !p(s[0]) then 0 else 1 + Span(p, s[1..])
  }

  /** nom's `take_while1!(p)` on complete input: the maximal non-empty run of bytes
      satisfying `p`; fails when the first byte is rejected or the input is empty. */
  function TakeWhile1(p: byte -> bool, input: seq<byte>): (r: Option<(seq<byte>, seq<byte>)>)
    ensures r.Some? <==> |input| > 0 && p(input[0])
    ensures r.Some? ==> IsMaximalRun(p, input, r.value.0, r.value.1)
  {
    var n := Span(p, input);
    if n == 0 then None else Some((input[..n], input[n..]))
  }

  /** The maximal run is unique: any decomposition of the input into a maximal
      run and a remainder is the one `TakeWhile1` returns. */
  lemma {:induction false} MaximalRunUnique(p: byte -> bool, input: seq<byte>, run: seq<byte>, rest: seq<byte>)
    requires IsMaximalRun(p, input, run, rest)
    ensures TakeWhile1(p, input) == Some((run, rest))
  {
    var n := Span(p, input);
    assert n >= |run| by {
      forall i | 0 <= i < |run| ensures p(input[i]) {
        assert input[i] == run[i];
      }
    }
    assert n <= |run| by {
      if |run| < |input| {
        assert input[|run|] == rest[0];
      }
    }
    assert input[..n] == run;
    assert input[n..] == rest;
  }

  /** nom's `alt!` over `map!(tag!(text), |_| value)` alternatives, tried in table order. */
  function FirstMatch<T>(table: seq<(seq<byte>, T)>, input: seq<byte>): (r: Option<(T, seq<byte>)>)
  {
    if table == [] then None
    else if table[0].0 <= input then Some((table[0].1, input[|table[0].0|..]))
    else FirstMatch(table[1..], input)
  }

  /** No text of the table is a prefix of another entry's text. */
  predicate PrefixFree<T(==)>(table: seq<(seq<byte>, T)>) {
    forall i, j | 0 <= i < |table| && 0 <= j < |table| && table[i].0 <= table[j].0 :: table[i] == table[j]
  }

  /** Two prefixes of the same sequence are ordered by the prefix relation. */
  lemma PrefixesComparable(a: seq<byte>, b: seq<byte>, s: seq<byte>)
    requires a <= s && b <= s
    ensures a <= b || b <= a
  {
    if |a| <= |b| {
      assert a == b[..|a|];
    } else {
      assert b == a[..|b|];
    }
  }

  /** When no entry's text starts the input, the alternation fails. */
  lemma {:induction false} FirstMatchNone<T>(table: seq<(seq<byte>, T)>, input: seq<byte>)
    requires forall i | 0 <= i < |table| :: !(table[i].0 <= input)
    ensures FirstMatch(table, input) == None
  {
    if table != [] {
      assert !(table[0].0 <= input);
      assert forall i | 0 <= i < |table[1..]| :: table[1..][i] == table[i + 1];
      FirstMatchNone(table[1..], input);
    }
  }

  /** In a prefix-free table the alternation returns the one entry whose text starts
      the input, wherever it stands in the table. */
  lemma {:induction false} FirstMatchUnique<T>(table: seq<(seq<byte>, T)>, input: seq<byte>, i: nat)
    requires PrefixFree(table)
    requires i < |table| && table[i].0 <= input
    ensures FirstMatch(table, input) == Some((table[i].1, input[|table[i].0|..]))
  {
    if table[0].0 <= input {
      PrefixesComparable(table[0].0, table[i].0, input);
      assert table[0] == table[i];
    } else {
      assert i > 0;
      var tail := table[1..];
      assert forall k | 0 <= k < |tail| :: tail[k] == table[k + 1];
      assert PrefixFree(tail);
      FirstMatchUnique(tail, input, i - 1);
    }
  }

  /** The order of the alternatives in a prefix-free table does not matter: any table
      with the same entries gives the same result on every input. */
  lemma OrderIrrelevant<T>(table: seq<(seq<byte>, T)>, other: seq<(seq<byte>, T)>, input: seq<byte>)
    requires PrefixFree(table)
    requires forall e :: e in table <==> e in other
    ensures FirstMatch(table, input) == FirstMatch(other, input)
  {
    assert PrefixFree(other) by {
      forall i, j | 0 <= i < |other| && 0 <= j < |other| && other[i].0 <= other[j].0
        ensures other[i] == other[j]
      {
        assert other[i] in table && other[j] in table;
        var i' :| 0 <= i' < |table| && table[i'] == other[i];
        var j' :| 0 <= j' < |table| && table[j'] == other[j];
      }
    }
    if i :| 0 <= i < |table| && table[i].0 <= input {
      FirstMatchUnique(table, input, i);
      assert table[i] in other;
      var k :| 0 <= k < |other| && other[k] == table[i];
      FirstMatchUnique(other, input, k);
    } else {
      FirstMatchNone(table, input);
      forall k | 0 <= k < |other| ensures !(other[k].0 <= input) {
        assert other[k] in table;
      }
      FirstMatchNone(other, input);
    }
  }
}
