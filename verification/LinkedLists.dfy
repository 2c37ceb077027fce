/** The lists the allocator threads through memory: singly linked chains in the first word of free objects, and
    circular doubly linked lists of spans. Memory is a map from addresses to words, and the sequences used in the rest
    of the model are what these lists stand for. */
module LinkedLists {

  const NULL: int := 0

  type Words = map<int, int>

  // ----- chains

  /** From head, following the links through the objects of s, one comes to NULL. */
  ghost predicate IsChain(next: Words, head: int, s: seq<int>)
    decreases s
  {
    if s == [] then head == NULL
    else head == s[0] && head != NULL && head in next && IsChain(next, next[head], s[1..])
  }

  /** Only the links of the given objects differ. */
  ghost predicate OnlyChanged(before: Words, after: Words, touched: set<int>) {
    && before.Keys <= after.Keys
    && forall p :: p in before && p !in touched ==> after[p] == before[p]
  }

  lemma {:induction false} ChainMembers(next: Words, head: int, s: seq<int>, i: nat)
    requires IsChain(next, head, s) && i < |s|
    ensures s[i] != NULL && s[i] in next && next[s[i]] == if i + 1 < |s| then s[i + 1] else NULL
    ensures IsChain(next, s[i], s[i..])
    decreases s
  {
    if i == 0 {
      assert s[0..] == s;
    } else {
      ChainMembers(next, next[head], s[1..], i - 1);
      assert s[1..][i - 1..] == s[i..];
    }
  }

  lemma {:induction false} ChainUnique(next: Words, head: int, s: seq<int>, t: seq<int>)
    requires IsChain(next, head, s) && IsChain(next, head, t)
    ensures s == t
    decreases s
  {
    if s == [] {
    } else {
      ChainUnique(next, next[head], s[1..], t[1..]);
      assert s == [s[0]] + s[1..] && t == [t[0]] + t[1..];
    }
  }

  /** A chain that ends cannot visit an object twice. */
  lemma ChainDistinct(next: Words, head: int, s: seq<int>, i: nat, j: nat)
    requires IsChain(next, head, s) && i < j < |s|
    ensures s[i] != s[j]
  {
    ChainMembers(next, head, s, i);
    ChainMembers(next, head, s, j);
    if s[i] == s[j] {
      ChainUnique(next, s[i], s[i..], s[j..]);
    }
  }

  /** A chain does not notice writes to other objects. */
  lemma {:induction false} ChainFrame(before: Words, after: Words, touched: set<int>, head: int, s: seq<int>)
    requires OnlyChanged(before, after, touched) && IsChain(before, head, s)
    requires forall i :: 0 <= i < |s| ==> s[i] !in touched
    ensures IsChain(after, head, s)
    decreases s
  {
    if s == [] {
    } else {
      ChainFrame(before, after, touched, before[head], s[1..]);
    }
  }

  /** Cutting a chain after its n-th object gives two chains. */
  lemma {:induction false} CutChain(next: Words, head: int, s: seq<int>, n: nat)
    requires IsChain(next, head, s) && 1 <= n <= |s|
    ensures var after := next[s[n - 1] := NULL];
            IsChain(after, head, s[..n]) && s[n - 1] in next && IsChain(after, next[s[n - 1]], s[n..])
  {
    var end := s[n - 1];
    var after := next[end := NULL];
    ChainMembers(next, head, s, n - 1);
    assert s[n - 1..][1..] == s[n..];
    forall i | n <= i < |s|
      ensures s[i] != end
    {
      ChainDistinct(next, head, s, n - 1, i);
    }
    ChainFrame(next, after, {end}, next[end], s[n..]);
    PrefixChain(next, after, head, s, n);
  }

  lemma {:induction false} PrefixChain(next: Words, after: Words, head: int, s: seq<int>, n: nat)
    requires IsChain(next, head, s) && 1 <= n <= |s| && after == next[s[n - 1] := NULL]
    ensures IsChain(after, head, s[..n])
    decreases s
  {
    if n == 1 {
      assert s[..1][1..] == [];
    } else {
      ChainDistinct(next, head, s, 0, n - 1);
      PrefixChain(next, after, next[head], s[1..], n - 1);
      assert s[..n][1..] == s[1..][..n - 1];
    }
  }

  /** Linking the last object of one chain to the head of another joins them. */
  lemma {:induction false} JoinChains(next: Words, start: int, s: seq<int>, head: int, t: seq<int>)
    requires IsChain(next, start, s) && IsChain(next, head, t) && s != []
    requires forall i, j :: 0 <= i < |s| && 0 <= j < |t| ==> s[i] != t[j]
    ensures IsChain(next[s[|s| - 1] := head], start, s + t)
    decreases s
  {
    var end := s[|s| - 1];
    var after := next[end := head];
    if |s| == 1 {
      ChainFrame(next, after, {end}, head, t);
      assert (s + t)[1..] == t;
    } else {
      ChainDistinct(next, start, s, 0, |s| - 1);
      JoinChains(next, next[start], s[1..], head, t);
      assert (s + t)[1..] == s[1..] + t;
    }
  }

  class Memory {
    var next: Words

    constructor ()
      ensures next == map[]
    {
      next := map[];
    }

    method Push(head: int, element: int, ghost s: seq<int>) returns (head': int)
      requires IsChain(next, head, s) && element != NULL && element !in s
      modifies this
      ensures IsChain(next, head', [element] + s) && OnlyChanged(old(next), next, {element})
    {
      ghost var before := next;
      next := next[element := head];
      head' := element;
      ChainFrame(before, next, {element}, head, s);
      assert ([element] + s)[1..] == s;
    }

    method Pop(head: int, ghost s: seq<int>) returns (result: int, head': int)
      requires IsChain(next, head, s) && s != []
      ensures result == s[0] && IsChain(next, head', s[1..])
    {
      return head, next[head];
    }

    /** Unlink the first n objects as a chain of their own, NULL-terminated. Nothing is lost: the two chains are the two
        parts of the old one. */
    method PopRange(head: int, n: nat, ghost s: seq<int>) returns (head': int, start: int, end: int)
      requires IsChain(next, head, s) && n <= |s|
      modifies this
      ensures IsChain(next, start, s[..n]) && IsChain(next, head', s[n..])
      ensures n > 0 ==> end == s[n - 1] && OnlyChanged(old(next), next, {end})
      ensures n == 0 ==> end == NULL && next == old(next)
    {
      if n == 0 {
        assert s[0..] == s && s[..0] == [];
        return head, NULL, NULL;
      }
      var tmp := head;
      var i := 1;
      while i < n
        invariant next == old(next) && 1 <= i <= n && tmp == s[i - 1]
      {
        ChainMembers(next, head, s, i - 1);
        tmp := next[tmp];
        i := i + 1;
      }
      CutChain(next, head, s, n);
      start, end, head' := head, tmp, next[tmp];
      next := next[tmp := NULL];
    }

    method PushRange(head: int, start: int, end: int, ghost s: seq<int>, ghost t: seq<int>) returns (head': int)
      requires IsChain(next, head, s) && IsChain(next, start, t) && (t != [] ==> end == t[|t| - 1])
      requires forall i, j :: 0 <= i < |t| && 0 <= j < |s| ==> t[i] != s[j]
      modifies this
      ensures IsChain(next, head', t + s) && OnlyChanged(old(next), next, {end})
    {
      if start == NULL {
        assert t + s == s;
        return head;
      }
      JoinChains(next, start, t, head, s);
      next := next[end := head];
      return start;
    }

    method Size(head: int, ghost s: seq<int>) returns (count: nat)
      requires IsChain(next, head, s)
      ensures count == |s|
    {
      count := 0;
      var p := head;
      while p != NULL
        invariant count <= |s| && IsChain(next, p, s[count..])
        decreases |s| - count
      {
        assert s[count..][1..] == s[count + 1..];
        p := next[p];
        count := count + 1;
      }
    }

    /** The loop of FetchFromOneSpans: take up to n objects, at least one, off the free list of a span. */
    method TakeUpTo(objects: int, n: int, ghost s: seq<int>) returns (result: nat, start: int, end: int, rest: int)
      requires IsChain(next, objects, s) && s != []
      modifies this
      ensures result == if n < 1 then 1 else if n < |s| then n else |s|
      ensures IsChain(next, start, s[..result]) && IsChain(next, rest, s[result..]) && end == s[result - 1]
      ensures OnlyChanged(old(next), next, {end})
    {
      ChainMembers(next, objects, s, 0);
      var prev, curr := objects, next[objects];
      result := 1;
      while result < n && curr != NULL
        invariant next == old(next) && 1 <= result <= |s| && (result <= n || result == 1)
        invariant prev == s[result - 1] && curr == if result < |s| then s[result] else NULL
        decreases |s| - result
      {
        ChainMembers(next, objects, s, result);
        prev, curr := curr, next[curr];
        result := result + 1;
      }
      if result < |s| {
        ChainMembers(next, objects, s, result);
      }
      CutChain(next, objects, s, result);
      ChainMembers(next, objects, s, result - 1);
      start, end, rest := objects, prev, curr;
      next := next[end := NULL];
    }

    /** The loop of Populate: cut the bytes from first to limit into objects and link them in order of address. As many
        are made as fit, and they do not overlap. */
    method Carve(first: int, limit: int, size: int) returns (objects: int, num: nat, ghost s: seq<int>)
      requires 0 < first <= limit && size > 0
      modifies this
      ensures IsChain(next, objects, s) && |s| == num && Pieces(s, first, size)
      ensures forall i :: 0 <= i < num ==> s[i] + size <= limit
      ensures limit < first + (num + 1) * size
      ensures OnlyChanged(old(next), next, set p | p in s)
    {
      objects, num, s := NULL, 0, [];
      var ptr, tail := first, NULL;
      while ptr + size <= limit
        invariant |s| == num && Pieces(s, first, size) && ptr == first + num * size
        invariant forall i :: 0 <= i < num ==> s[i] + size <= ptr
        invariant ptr <= limit
        invariant objects == if num == 0 then NULL else first
        invariant tail == if num == 0 then NULL else s[num - 1]
        invariant Linked(next, s) && OnlyChanged(old(next), next, set p | p in s)
        decreases limit - ptr
      {
        LinkOne(old(next), next, s, ptr);
        if tail == NULL {
          objects := ptr;
        } else {
          next := next[tail := ptr];
        }
        s := s + [ptr];
        NextPiece(first, size, num);
        tail := ptr;
        ptr := ptr + size;
        num := num + 1;
      }
      NextPiece(first, size, num);
      if tail != NULL {
        next := next[tail := NULL];
        LinkedIsChain(next, s, 0);
        assert s[0..] == s;
      }
    }
  }

  /** Objects of the given size side by side. */
  ghost predicate Pieces(s: seq<int>, first: int, size: int) {
    forall i :: 0 <= i < |s| ==> s[i] == first + i * size
  }

  lemma NextPiece(first: int, size: int, n: nat)
    ensures first + (n + 1) * size == first + n * size + size
  {
  }

  /** Each object but the last is linked to the one after it, at a higher address. */
  ghost predicate Linked(next: Words, s: seq<int>) {
    && (forall i :: 0 <= i < |s| - 1 ==> s[i] in next && next[s[i]] == s[i + 1])
    && (forall i, j :: 0 <= i < j < |s| ==> s[i] < s[j])
    && (forall i :: 0 <= i < |s| ==> s[i] != NULL)
  }

  function LinkLast(next: Words, s: seq<int>, ptr: int): Words {
    if s == [] then next else next[s[|s| - 1] := ptr]
  }

  lemma LinkOne(before: Words, next: Words, s: seq<int>, ptr: int)
    requires Linked(next, s) && OnlyChanged(before, next, set p | p in s)
    requires ptr != NULL && forall i :: 0 <= i < |s| ==> s[i] < ptr
    ensures Linked(LinkLast(next, s, ptr), s + [ptr])
    ensures OnlyChanged(before, LinkLast(next, s, ptr), set p | p in s + [ptr])
  {
  }

  lemma {:induction false} LinkedIsChain(next: Words, s: seq<int>, k: nat)
    requires Linked(next, s) && s != [] && s[|s| - 1] in next && next[s[|s| - 1]] == NULL && k < |s|
    ensures IsChain(next, s[k], s[k..])
    decreases |s| - k
  {
    if k + 1 < |s| {
      LinkedIsChain(next, s, k + 1);
      assert s[k..][1..] == s[k + 1..];
    } else {
      assert s[k..][1..] == [];
    }
  }

  // ----- circular lists of spans

  datatype Links = Links(next: Words, prev: Words)

  /** Going round the list: position 0 is the head, and so is the position after the last span. */
  function Node(h: int, s: seq<int>, i: nat): int
    requires i <= |s| + 1
  {
    if i == 0 || i == |s| + 1 then h else s[i - 1]
  }

  /** The two links between neighbouring positions. */
  ghost predicate Joined(l: Links, h: int, s: seq<int>, i: nat)
    requires i <= |s|
  {
    var a, b := Node(h, s, i), Node(h, s, i + 1);
    a in l.next && l.next[a] == b && b in l.prev && l.prev[b] == a
  }

  /** The list with head h holds s: forwards through next and backwards through prev. */
  ghost predicate IsRing(l: Links, h: int, s: seq<int>) {
    && (forall i, j :: 0 <= i < j < |s| ==> s[i] != s[j])
    && (forall i :: 0 <= i < |s| ==> s[i] != h)
    && (forall i {:trigger Joined(l, h, s, i)} :: 0 <= i <= |s| ==> Joined(l, h, s, i))
  }

  /** Links of nodes outside a set are as before. */
  ghost predicate Elsewhere(before: Links, after: Links, touched: set<int>) {
    && (forall a :: a in before.next && a !in touched ==> a in after.next && after.next[a] == before.next[a])
    && (forall a :: a in before.prev && a !in touched ==> a in after.prev && after.prev[a] == before.prev[a])
  }

  /** A list does not notice changes to other nodes. */
  lemma RingFrame(before: Links, after: Links, touched: set<int>, h: int, s: seq<int>)
    requires IsRing(before, h, s) && Elsewhere(before, after, touched)
    requires h !in touched && forall i :: 0 <= i < |s| ==> s[i] !in touched
    ensures IsRing(after, h, s)
  {
    forall i | 0 <= i <= |s|
      ensures Joined(after, h, s, i)
    {
      assert Joined(before, h, s, i);
    }
  }

  /** The assignments of DLL_Prepend. */
  function PrependLinks(l: Links, h: int, span: int): Links
    requires h in l.next
  {
    var first := l.next[h];
    Links(l.next[span := first][h := span], l.prev[span := h][first := span])
  }

  lemma PrependKeeps(l: Links, h: int, span: int, s: seq<int>)
    requires IsRing(l, h, s) && span != h && span !in s && h in l.next
    ensures IsRing(PrependLinks(l, h, span), h, [span] + s)
  {
    var t := [span] + s;
    assert Joined(l, h, s, 0);
    forall i | 0 <= i <= |t|
      ensures Joined(PrependLinks(l, h, span), h, t, i)
    {
      if i >= 2 {
        assert Joined(l, h, s, i - 1);
      }
    }
  }

  /** The assignments of DLL_Remove. */
  function RemoveLinks(l: Links, span: int): Links
    requires span in l.next && span in l.prev
  {
    var n, p := l.next[span], l.prev[span];
    Links(l.next[p := n][span := NULL], l.prev[n := p][span := NULL])
  }

  function Without(s: seq<int>, i: nat): seq<int>
    requires i < |s|
  {
    s[..i] + s[i + 1..]
  }

  lemma RemoveKeeps(l: Links, h: int, s: seq<int>, i: nat)
    requires IsRing(l, h, s) && i < |s| && s[i] in l.next && s[i] in l.prev
    ensures IsRing(RemoveLinks(l, s[i]), h, Without(s, i))
  {
    var t := Without(s, i);
    assert forall j :: 0 <= j < |t| ==> t[j] == if j < i then s[j] else s[j + 1];
    forall j | 0 <= j <= |t|
      ensures Joined(RemoveLinks(l, s[i]), h, t, j)
    {
      RemoveJoins(l, h, s, i, j);
    }
  }

  lemma RemoveJoins(l: Links, h: int, s: seq<int>, i: nat, j: nat)
    requires IsRing(l, h, s) && i < |s| && s[i] in l.next && s[i] in l.prev && j < |s|
    ensures Joined(RemoveLinks(l, s[i]), h, Without(s, i), j)
  {
    var t := Without(s, i);
    assert Node(h, t, j) == if j <= i then Node(h, s, j) else Node(h, s, j + 1);
    assert Node(h, t, j + 1) == if j < i then Node(h, s, j + 1) else Node(h, s, j + 2);
    assert Joined(l, h, s, i) && Joined(l, h, s, i + 1);
    if j < i {
      assert Joined(l, h, s, j);
    } else if j > i {
      assert Joined(l, h, s, j + 1);
    }
  }

  class SpanLinks {
    var links: Links

    constructor ()
      ensures links == Links(map[], map[])
    {
      links := Links(map[], map[]);
    }

    /** An empty list. */
    method Init(h: int)
      modifies this
      ensures IsRing(links, h, []) && Elsewhere(old(links), links, {h})
    {
      links := Links(links.next[h := h], links.prev[h := h]);
    }

    /** Put a span at the front. */
    method Prepend(h: int, span: int, ghost s: seq<int>)
      requires IsRing(links, h, s) && span != h && span !in s
      modifies this
      ensures IsRing(links, h, [span] + s) && Elsewhere(old(links), links, {h, span} + set p | p in s)
    {
      assert Joined(links, h, s, 0);
      PrependKeeps(links, h, span, s);
      var first := links.next[h];
      links := Links(links.next[span := first], links.prev[span := h]);
      links := links.(prev := links.prev[first := span]);
      links := links.(next := links.next[h := span]);
    }

    /** Take a span out, wherever it is in its list. */
    method Remove(span: int, ghost h: int, ghost s: seq<int>, ghost i: nat)
      requires IsRing(links, h, s) && i < |s| && span == s[i]
      modifies this
      ensures IsRing(links, h, Without(s, i)) && Elsewhere(old(links), links, {h} + set p | p in s)
      ensures span in links.next && links.next[span] == NULL && span in links.prev && links.prev[span] == NULL
    {
      assert Joined(links, h, s, i) && Joined(links, h, s, i + 1);
      RemoveKeeps(links, h, s, i);
      var n, p := links.next[span], links.prev[span];
      links := links.(next := links.next[p := n]);
      links := links.(prev := links.prev[n := p]);
      links := Links(links.next[span := NULL], links.prev[span := NULL]);
    }

    method Length(h: int, ghost s: seq<int>) returns (result: nat)
      requires IsRing(links, h, s)
      ensures result == |s|
    {
      result := 0;
      assert Joined(links, h, s, 0);
      var p := links.next[h];
      while p != h
        invariant result <= |s| && p == Node(h, s, result + 1)
        decreases |s| - result
      {
        assert Joined(links, h, s, result + 1);
        p := links.next[p];
        result := result + 1;
      }
    }
  }
}
