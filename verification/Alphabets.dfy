/** Digits written with the letters of an alphabet, one letter a digit. */
module Alphabets {
  import opened Wrappers
  import opened Digits

  ghost predicate Distinct(alphabet: string) {
    forall i, j | 0 <= i < j < |alphabet| :: alphabet[i] != alphabet[j]
  }

  function FindFrom(alphabet: string, c: char, i: nat): (r: Option<nat>)
    requires i <= |alphabet|
    ensures r.Some? ==> r.value < |alphabet| && alphabet[r.value] == c
    ensures r.None? ==> forall k | i <= k < |alphabet| :: alphabet[k] != c
    decreases |alphabet| - i
  {
    if i == |alphabet| then None
    else if alphabet[i] == c then Some(i)
    else FindFrom(alphabet, c, i + 1)
  }

  /** Where a letter stands in the alphabet. */
  function Find(alphabet: string, c: char): Option<nat> {
    FindFrom(alphabet, c, 0)
  }

  function Text(alphabet: string, ds: seq<nat>): (s: string)
    requires InBase(|alphabet|, ds)
    ensures |s| == |ds|
  {
    seq(|ds|, i requires 0 <= i < |ds| => alphabet[ds[i]])
  }

  function Indices(alphabet: string, s: string): (r: Result<seq<nat>>)
    ensures r.Ok? ==> |r.value| == |s| && InBase(|alphabet|, r.value)
  {
    if |s| == 0 then Ok([])
    else
      var init :- Indices(alphabet, s[..|s| - 1]);
      match Find(alphabet, s[|s| - 1])
      case None => Err
      case Some(d) => Ok(init + [d])
  }

  lemma FindLetter(alphabet: string, d: nat)
    requires Distinct(alphabet) && d < |alphabet|
    ensures Find(alphabet, alphabet[d]) == Some(d)
  {
  }

  /** What is written is read back. */
  lemma {:induction false} IndicesText(alphabet: string, ds: seq<nat>)
    requires Distinct(alphabet) && InBase(|alphabet|, ds)
    ensures Indices(alphabet, Text(alphabet, ds)) == Ok(ds)
  {
    if |ds| > 0 {
      var n := |ds| - 1;
      assert Text(alphabet, ds)[..n] == Text(alphabet, ds[..n]);
      IndicesText(alphabet, ds[..n]);
      FindLetter(alphabet, ds[n]);
      assert ds == ds[..n] + [ds[n]];
    }
  }

  /** What is read was written so. */
  lemma {:induction false} TextIndices(alphabet: string, s: string)
    requires Indices(alphabet, s).Ok?
    ensures Text(alphabet, Indices(alphabet, s).value) == s
  {
    if |s| > 0 {
      TextIndices(alphabet, s[..|s| - 1]);
    }
  }

  /** Exactly the strings over the alphabet are read. */
  lemma {:induction false} OverAlphabet(alphabet: string, s: string)
    ensures Indices(alphabet, s).Ok? <==> forall i | 0 <= i < |s| :: Find(alphabet, s[i]).Some?
  {
    if |s| > 0 {
      var n := |s| - 1;
      OverAlphabet(alphabet, s[..n]);
      assert forall i | 0 <= i < n :: s[..n][i] == s[i];
      assert (forall i | 0 <= i < |s| :: Find(alphabet, s[i]).Some?) ==> Find(alphabet, s[n]).Some?;
    }
  }

  /** A letter outside the alphabet stops the reading. */
  lemma IndicesStop(alphabet: string, s: string, n: nat)
    requires n < |s| && Find(alphabet, s[n]).None?
    ensures Indices(alphabet, s).Err?
  {
    OverAlphabet(alphabet, s);
  }
}
