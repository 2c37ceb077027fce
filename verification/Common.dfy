/** What the parts of the model share. */
module Common {

  const PAGE_SIZE: nat := 8192

  /** Machine words have 64 bits. */
  const WORD: nat := 0x1_0000_0000_0000_0000

  datatype Option<T> = None | Some(value: T)

  ghost predicate Distinct<T>(s: seq<T>) {
    forall i, j :: 0 <= i < j < |s| ==> s[i] != s[j]
  }

  /** Unlinking one element. */
  function Unlink(s: seq<int>, x: int): seq<int> {
    if s == [] then [] else if s[0] == x then s[1..] else [s[0]] + Unlink(s[1..], x)
  }

  lemma {:induction false} UnlinkMembers(s: seq<int>, x: int)
    requires Distinct(s)
    ensures Distinct(Unlink(s, x))
    ensures forall y :: y in Unlink(s, x) <==> y in s && y != x
  {
    if s == [] {
    } else {
      var h, t := s[0], s[1..];
      assert s == [h] + t;
      assert h !in t by {
        assert forall k :: 0 <= k < |t| ==> t[k] == s[k + 1];
      }
      if h != x {
        UnlinkMembers(t, x);
        assert h !in Unlink(t, x);
      }
    }
  }
}
