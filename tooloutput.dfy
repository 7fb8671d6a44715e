/**
 * What the dictionary-scan plugin reads from the cracking tool's (stripped)
 * output: the exact "not found" sentinel, and the key between brackets that
 * `re.search(r'\[(.*)\]', output).group(1)` extracts. In that pattern `.`
 * matches anything but a newline and `.*` is greedy, so the key runs from the
 * leftmost `[` that has a `]` after it on its own line to the last such `]`.
 */
module ToolOutput {
  import opened Optional
  import opened Strings

  const KeyNotFound: string := "KEY NOT FOUND"

  /** The last `]` at or after `from` and before the first newline from there on. */
  function LastCloseOnLine(s: string, from: nat): (r: Option<nat>)
    ensures r.Some? ==> from <= r.value < |s| && s[r.value] == ']' && '\n' !in s[from..r.value]
    ensures r.Some? ==> forall q :: r.value < q < |s| && '\n' !in s[from..q] ==> s[q] != ']'
    ensures r.None? ==> forall q :: from <= q < |s| && '\n' !in s[from..q] ==> s[q] != ']'
    decreases |s| - from
  {
    if from >= |s| || s[from] == '\n' then
      assert forall q :: from < q <= |s| ==> s[from..q][0] == s[from];
      None
    else
      var rest := LastCloseOnLine(s, from + 1);
      assert forall q :: from < q <= |s| ==> s[from..q] == [s[from]] + s[from + 1..q];
      if rest.Some? then rest
      else if s[from] == ']' then Some(from)
      else None
  }

  /** The regular-expression search started at position `p`. */
  function SearchKey(s: string, p: nat): Option<string>
    decreases |s| - p
  {
    if p >= |s| then None
    else if s[p] == '[' && LastCloseOnLine(s, p + 1).Some? then
      Some(s[p + 1..LastCloseOnLine(s, p + 1).value])
    else SearchKey(s, p + 1)
  }

  /** `re.search(r'\[(.*)\]', s)`, and its group 1 when it matches. */
  function ExtractKey(s: string): Option<string> {
    SearchKey(s, 0)
  }

  /** A `[` at `p` with a `]` at `q` later on the same line. */
  predicate BracketPair(s: string, p: int, q: int) {
    0 <= p < q < |s| && s[p] == '[' && s[q] == ']' && '\n' !in s[p + 1..q]
  }

  /** The search from `p` finds a key exactly when some bracket pair starts at or after `p`. */
  lemma {:induction false} SearchKeySpec(s: string, p: nat)
    ensures SearchKey(s, p).Some? <==> exists i, j :: p <= i && BracketPair(s, i, j)
    decreases |s| - p
  {
    if p < |s| {
      SearchKeySpec(s, p + 1);
      var close := LastCloseOnLine(s, p + 1);
      if s[p] == '[' && close.Some? {
        assert BracketPair(s, p, close.value);
      } else {
        assert forall j :: !BracketPair(s, p, j);
      }
    }
  }

  /**
   * A key found from `p` is the text of a bracket pair, and that pair starts at
   * the leftmost `[` from `p` on that has a partner and ends at the last `]` of
   * that line (`.*` is greedy and stops at a newline).
   */
  lemma {:induction false} SearchKeyLeftmost(s: string, p: nat) returns (i: nat, j: nat)
    requires SearchKey(s, p).Some?
    ensures p <= i && BracketPair(s, i, j) && SearchKey(s, p).value == s[i + 1..j]
    ensures forall i', j' :: p <= i' < i ==> !BracketPair(s, i', j')
    ensures forall q :: j < q < |s| && '\n' !in s[i + 1..q] ==> s[q] != ']'
    decreases |s| - p
  {
    var close := LastCloseOnLine(s, p + 1);
    if s[p] == '[' && close.Some? {
      i, j := p, close.value;
    } else {
      i, j := SearchKeyLeftmost(s, p + 1);
      assert forall j' :: !BracketPair(s, p, j');
    }
  }

  /** A found key sits between brackets in the output and holds no newline. */
  lemma ExtractKeyFound(s: string)
    requires ExtractKey(s).Some?
    ensures Contains(s, "[" + ExtractKey(s).value + "]")
    ensures '\n' !in ExtractKey(s).value
  {
    var i, j := SearchKeyLeftmost(s, 0);
    var needle := "[" + ExtractKey(s).value + "]";
    assert s[i..j + 1] == [s[i]] + s[i + 1..j] + [s[j]];
    assert s[i..j + 1] == needle;
    ContainsAt(s, needle);
    assert OccursAt(s, needle, i);
  }

  /** Output with no `[` followed by a `]` on the same line yields no key. */
  lemma ExtractKeyMissing(s: string)
    requires forall i, j :: !BracketPair(s, i, j)
    ensures ExtractKey(s).None?
  {
    SearchKeySpec(s, 0);
  }

  /**
   * On a single line the key is everything between the first `[` and the last
   * `]`, when the `]` comes after the `[`.
   */
  lemma ExtractKeyOneLine(s: string, i: nat, j: nat)
    requires '\n' !in s
    requires i < j < |s| && s[i] == '[' && s[j] == ']'
    requires forall k :: 0 <= k < i ==> s[k] != '['
    requires forall k :: j < k < |s| ==> s[k] != ']'
    ensures ExtractKey(s) == Some(s[i + 1..j])
  {
    SearchKeySpec(s, 0);
    assert BracketPair(s, i, j);
    var i', j' := SearchKeyLeftmost(s, 0);
    assert i' == i;
    var close := LastCloseOnLine(s, i + 1);
    assert SearchKey(s, i) == Some(s[i + 1..close.value]) by {
      assert close.Some? by {
        assert '\n' !in s[i + 1..j];
      }
    }
    assert close.value == j by {
      assert '\n' !in s[i + 1..j];
    }
    SearchFrom(s, 0, i);
  }

  /** Positions before the first `[` are skipped by the search. */
  lemma {:induction false} SearchFrom(s: string, p: nat, i: nat)
    requires p <= i < |s|
    requires forall k :: p <= k < i ==> s[k] != '['
    ensures SearchKey(s, p) == SearchKey(s, i)
    decreases i - p
  {
    if p < i {
      SearchFrom(s, p + 1, i);
    }
  }
}
