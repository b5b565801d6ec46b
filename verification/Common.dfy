/** Types shared by the models. */
module Common {
  datatype Option<+T> = None | Some(value: T)

  datatype Result<+T, +E> = Ok(value: T) | Err(error: E)

  type byte = b: int | 0 <= b < 256

  /** The big-endian 16-bit number at `offset`. */
  function Uint16At(message: seq<byte>, offset: nat): nat
    requires offset + 2 <= |message|
  {
    message[offset] as int * 256 + message[offset + 1] as int
  }

  /** The first position from `from` on at which the test holds, or the length. */
  function FirstIndex<T>(s: seq<T>, test: T -> bool, from: nat): (i: nat)
    requires from <= |s|
    requires forall k :: 0 <= k < from ==> !test(s[k])
    ensures from <= i <= |s|
    ensures i < |s| ==> test(s[i])
    ensures forall k :: 0 <= k < i ==> !test(s[k])
    decreases |s| - from
  {
    if from == |s| || test(s[from]) then from else FirstIndex(s, test, from + 1)
  }

  // `at` lists, in order and once each, the positions of the true flags.
  ghost predicate Selects(at: seq<nat>, flags: seq<bool>) {
    && (forall k :: 0 <= k < |at| ==> at[k] < |flags| && flags[at[k]])
    && (forall j, k :: 0 <= j < k < |at| ==> at[j] < at[k])
    && (forall i :: 0 <= i < |flags| && flags[i] ==> i in at)
  }

  function TrueAt(flags: seq<bool>): seq<nat> {
    if flags == [] then []
    else
      var before := TrueAt(flags[..|flags| - 1]);
      if flags[|flags| - 1] then before + [|flags| - 1] else before
  }

  lemma {:induction false} TrueAtSelects(flags: seq<bool>)
    ensures Selects(TrueAt(flags), flags)
  {
    if flags != [] {
      var before, n := TrueAt(flags[..|flags| - 1]), |flags| - 1;
      TrueAtSelects(flags[..n]);
      assert forall i :: 0 <= i < n ==> flags[i] == flags[..n][i];
      if flags[n] { assert (before + [n])[|before|] == n && forall k :: 0 <= k < |before| ==> (before + [n])[k] == before[k]; }
    }
  }

  // Distinct numbers below n are at most n many.
  lemma {:induction false} Pigeonhole(s: seq<nat>, n: nat)
    requires forall i :: 0 <= i < |s| ==> s[i] < n
    requires forall i, j :: 0 <= i < j < |s| ==> s[i] != s[j]
    ensures |s| <= n
  {
    if n - 1 in s {
      var i :| 0 <= i < |s| && s[i] == n - 1;
      Pigeonhole(s[..i] + s[i + 1..], n - 1);
    } else if s != [] {
      assert s[0] < n - 1;
      Pigeonhole(s, n - 1);
    }
  }
}
