/**
 * Node and edge identifiers as the parser spells them with template literals:
 * `node-${index}` and `edge-${index}`, where a non-negative integer index
 * prints as its decimal digits with no leading zero.
 */
module Ids {

  predicate IsDigit(c: char)
  {
    '0' <= c <= '9'
  }

  function DigitChar(d: nat): (c: char)
    requires d < 10
    ensures IsDigit(c)
  {
    ('0' as int + d) as char
  }

  function DigitValue(c: char): nat
    requires IsDigit(c)
  {
    c as int - '0' as int
  }

  /** The decimal spelling of `n`: one or more digits. */
  function NatToString(n: nat): (s: string)
    ensures |s| >= 1
    ensures forall i :: 0 <= i < |s| ==> IsDigit(s[i])
  {
    if n < 10 then [DigitChar(n)] else NatToString(n / 10) + [DigitChar(n % 10)]
  }

  /** The number a non-empty string of digits denotes, read most significant digit first. */
  function DigitsValue(s: string): nat
    requires forall i :: 0 <= i < |s| ==> IsDigit(s[i])
  {
    if s == [] then 0 else DigitsValue(s[..|s| - 1]) * 10 + DigitValue(s[|s| - 1])
  }

  /** Reading back the decimal spelling of `n` gives `n`. */
  lemma {:induction false} NatToStringRoundTrip(n: nat)
    ensures DigitsValue(NatToString(n)) == n
  {
    if n >= 10 {
      NatToStringRoundTrip(n / 10);
      var s := NatToString(n);
      assert s[..|s| - 1] == NatToString(n / 10);
    }
  }

  /** Distinct numbers have distinct decimal spellings. */
  lemma NatToStringInjective(i: nat, j: nat)
    requires NatToString(i) == NatToString(j)
    ensures i == j
  {
    NatToStringRoundTrip(i);
    NatToStringRoundTrip(j);
  }

  const NodePrefix: string := "node-"
  const EdgePrefix: string := "edge-"

  /** The id the parser gives the node of step `i`. */
  function NodeId(i: nat): string
  {
    NodePrefix + NatToString(i)
  }

  /** The id the parser gives the edge from step `i` to step `i + 1`. */
  function EdgeId(i: nat): string
  {
    EdgePrefix + NatToString(i)
  }

  /** Two steps share a node id only if they are the same step. */
  lemma NodeIdInjective(i: nat, j: nat)
    requires NodeId(i) == NodeId(j)
    ensures i == j
  {
    assert NodeId(i)[|NodePrefix|..] == NatToString(i);
    assert NodeId(j)[|NodePrefix|..] == NatToString(j);
    NatToStringInjective(i, j);
  }

  /** Two edges share an id only if they join the same pair of steps. */
  lemma EdgeIdInjective(i: nat, j: nat)
    requires EdgeId(i) == EdgeId(j)
    ensures i == j
  {
    assert EdgeId(i)[|EdgePrefix|..] == NatToString(i);
    assert EdgeId(j)[|EdgePrefix|..] == NatToString(j);
    NatToStringInjective(i, j);
  }
}
