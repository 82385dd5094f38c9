/** The linked lists of ampm_list.c, whose items carry the link themselves, as sequences of distinct items. */
module HeapList {
  class Node {
    var next: Node?
  }

  function Without<T(==)>(s: seq<T>, x: T): seq<T> {
    if |s| == 0 then [] else if s[0] == x then s[1..] else [s[0]] + Without(s[1..], x)
  }

  ghost predicate Distinct<T>(s: seq<T>) {
    forall i, j | 0 <= i < j < |s| :: s[i] != s[j]
  }

  lemma {:induction false} WithoutAt<T>(s: seq<T>, x: T, k: nat)
    requires k < |s| && s[k] == x && x !in s[..k]
    ensures Without(s, x) == s[..k] + s[k + 1..]
    decreases k
  {
    if k == 0 {
    } else {
      assert s[..k] == [s[0]] + s[1..][..k - 1];
      WithoutAt(s[1..], x, k - 1);
      assert s[1..][k..] == s[k + 1..];
    }
  }

  lemma {:induction false} WithoutAbsent<T>(s: seq<T>, x: T)
    requires x !in s
    ensures Without(s, x) == s
  {
    if |s| == 0 {
    } else {
      WithoutAbsent(s[1..], x);
    }
  }

  // Taking an item out leaves the others, and only them, still distinct.
  lemma WithoutKeeps<T>(s: seq<T>, x: T)
    requires Distinct(s)
    ensures Distinct(Without(s, x)) && forall y :: y in Without(s, x) <==> y in s && y != x
  {
    if x in s {
      var k :| 0 <= k < |s| && s[k] == x;
      WithoutAt(s, x, k);
    } else {
      WithoutAbsent(s, x);
    }
  }

  // What the link of the item at place i has to be.
  function Following(items: seq<Node>, i: nat): Node?
    requires i < |items|
  {
    if i + 1 < |items| then items[i + 1] else null
  }

  ghost predicate Linked(head: Node?, items: seq<Node>)
    reads items
  {
    && head == (if |items| == 0 then null else items[0])
    && Distinct(items)
    && forall i {:trigger Following(items, i)} | 0 <= i < |items| :: items[i].next == Following(items, i)
  }

  class List {
    var head: Node?
    ghost var items: seq<Node>

    ghost predicate Valid()
      reads this, items
    {
      Linked(head, items)
    }

    // list_init
    constructor ()
      ensures Valid() && items == []
    {
      head, items := null, [];
    }

    // list_tail
    method Tail() returns (l: Node?)
      requires Valid()
      ensures l == if |items| == 0 then null else items[|items| - 1]
    {
      if head == null {
        return null;
      }
      l := head;
      ghost var k := 0;
      assert head.next == Following(items, 0);
      while l.next != null
        invariant 0 <= k < |items| && l == items[k] && l.next == Following(items, k)
        decreases |items| - k
      {
        assert items[k + 1].next == Following(items, k + 1);
        l, k := l.next, k + 1;
      }
    }

    // list_length
    method Length() returns (n: nat)
      requires Valid()
      ensures n == |items|
    {
      n := 0;
      var l := head;
      while l != null
        invariant 0 <= n <= |items| && l == if n < |items| then items[n] else null
        decreases |items| - n
      {
        assert l.next == Following(items, n);
        n, l := n + 1, l.next;
      }
    }

    // list_remove
    method Remove(item: Node)
      requires Valid()
      modifies this, items
      ensures Valid() && items == Without(old(items), item)
      ensures item in old(items) ==> item.next == null
      ensures item !in old(items) ==> forall n | n in old(items) :: n.next == old(n.next)
    {
      if head == null {
        return;
      }
      var r: Node? := null;
      var l := head;
      ghost var k := 0;
      while l != null
        invariant 0 <= k <= |items| && l == (if k < |items| then items[k] else null)
        invariant r == if k == 0 then null else items[k - 1]
        invariant item !in items[..k]
        decreases |items| - k
      {
        assert l.next == Following(items, k);
        if l == item {
          Unlink(r, l, k);
          return;
        }
        assert items[..k + 1] == items[..k] + [l];
        r, l, k := l, l.next, k + 1;
      }
      assert items[..k] == items;
      WithoutAbsent(items, item);
    }

    // Taking out the item at place k, which r is before.
    method Unlink(r: Node?, l: Node, ghost k: nat)
      requires Valid() && k < |items| && l == items[k] && r == if k == 0 then null else items[k - 1]
      modifies this, items
      ensures Valid() && items == Without(old(items), l) && l.next == null
    {
      assert l.next == Following(items, k);
      if r == null {
        head := l.next;
      } else {
        r.next := l.next;
      }
      l.next := null;
      Unlinked(items, k);
    }

    ghost method Unlinked(was: seq<Node>, k: nat)
      requires k < |was| && items == was && Distinct(was)
      requires if k == 0 then head == Following(was, 0) else head == was[0] && was[k - 1].next == Following(was, k)
      requires forall i {:trigger Following(was, i)} | 0 <= i < |was| && i != k && i + 1 != k ::
                 was[i].next == Following(was, i)
      modifies this`items
      ensures Valid() && items == Without(was, was[k])
    {
      items := was[..k] + was[k + 1..];
      WithoutAt(was, was[k], k);
      forall i | 0 <= i < |items| ensures items[i].next == Following(items, i) {
        if i + 1 < k {
          assert was[i].next == Following(was, i);
        } else if i >= k {
          assert was[i + 1].next == Following(was, i + 1);
        }
      }
    }

    // list_add
    method Add(item: Node)
      requires Valid()
      modifies this, items, item
      ensures Valid() && items == Without(old(items), item) + [item]
    {
      Remove(item);
      ghost var was := items;
      WithoutKeeps(old(items), item);
      item.next := null;
      assert Linked(head, was) by {
        forall i | 0 <= i < |was| ensures was[i].next == Following(was, i) { assert was[i] in was; }
      }
      var l := Tail();
      if l == null {
        head := item;
      } else {
        assert l in was && l in old(items);
        l.next := item;
      }
      Appended(was, item);
    }

    ghost method Appended(was: seq<Node>, item: Node)
      requires items == was && item !in was && Distinct(was) && item.next == null
      requires head == (was + [item])[0] && (|was| > 0 ==> was[|was| - 1].next == item)
      requires forall i {:trigger Following(was, i)} | 0 <= i < |was| - 1 :: was[i].next == Following(was, i)
      modifies this`items
      ensures Valid() && items == was + [item]
    {
      items := was + [item];
      forall i | 0 <= i < |items| ensures items[i].next == Following(items, i) {
        if i < |was| - 1 { assert was[i].next == Following(was, i); }
      }
    }

    // list_push
    method Push(item: Node)
      requires Valid()
      modifies this, items, item
      ensures Valid() && items == [item] + Without(old(items), item)
    {
      Remove(item);
      ghost var was := items;
      WithoutKeeps(old(items), item);
      item.next := head;
      head := item;
      items := [item] + was;
      forall i | 0 <= i < |items| ensures items[i].next == Following(items, i) {
        if i > 0 { assert was[i - 1] in was && was[i - 1].next == Following(was, i - 1); }
      }
    }

    // list_chop
    method Chop() returns (r: Node?)
      requires Valid()
      modifies this, items
      ensures Valid()
      ensures if |old(items)| == 0 then r == null && items == []
              else r == old(items)[|old(items)| - 1] && items == old(items)[..|old(items)| - 1]
    {
      if head == null {
        return null;
      }
      assert head.next == Following(items, 0);
      if head.next == null {
        r := head;
        head, items := null, [];
        return;
      }
      var l: Node := head;
      ghost var k := 0;
      assert items[1].next == Following(items, 1);
      while l.next.next != null
        invariant 0 <= k < |items| - 1 && l == items[k] && l.next == items[k + 1]
        invariant items[k + 1].next == Following(items, k + 1)
        decreases |items| - k
      {
        assert items[k + 2].next == Following(items, k + 2);
        l, k := l.next, k + 1;
      }
      r := l.next;
      ghost var was := items;
      l.next := null;
      items := was[..|was| - 1];
      forall i | 0 <= i < |items| ensures items[i].next == Following(items, i) {
        assert old(was[i].next) == Following(was, i);
      }
    }

    // list_pop
    method Pop() returns (l: Node?)
      requires Valid()
      modifies this
      ensures Valid()
      ensures if |old(items)| == 0 then l == null && items == [] else l == old(items)[0] && items == old(items)[1..]
    {
      l := head;
      if head != null {
        ghost var was := items;
        assert head.next == Following(was, 0);
        head, items := head.next, was[1..];
        forall i | 0 <= i < |items| ensures items[i].next == Following(items, i) {
          assert was[i + 1].next == Following(was, i + 1);
        }
      }
    }

    // list_insert. Unlike the others it does not look whether the new item is on the list already. If it is there
    // before prev, the items behind it up to prev are lost; if it is prev or behind it, the list runs in a circle.
    // Nor does it look whether prev is on the list; k is its place if it is.
    method Insert(prev: Node?, item: Node, ghost k: nat)
      requires Valid() && (prev != null && prev in items ==> k < |items| && items[k] == prev)
      modifies this, items, item, if prev == null then {} else {prev}
      ensures prev == null ==> Valid() && items == [item] + Without(old(items), item)
      ensures prev != null && prev !in old(items) ==>
                && prev.next == item && (item != prev ==> item.next == old(prev.next))
                && (item !in old(items) ==> Valid() && items == old(items))
      ensures prev != null && prev in old(items) && item !in old(items) ==>
                Valid() && items == old(items)[..k + 1] + [item] + old(items)[k + 1..]
      ensures prev != null && prev in old(items) ==> forall j | 0 <= j < |old(items)| && old(items)[j] == item ::
                if j < k then Valid() && items == old(items)[..j + 1] + old(items)[k + 1..]
                else Circles(head, Circle(old(items), k, j), if j == k then k else k + 1)
      ensures prev != null && prev in old(items) ==>
                (Linked(head, old(items)[..k + 1] + [item] + old(items)[k + 1..]) <==> item !in old(items))
    {
      if prev == null {
        Push(item);
      } else {
        ghost var was := items;
        Relink(prev, item, k);
        if prev !in was {
          if item !in was { Untouched(was, old(head)); }
        } else if item !in was {
          Inserted(was, k, item);
        } else {
          ghost var j := PlaceOf(was, item);
          Doubled(was, k, j, was[..k + 1] + [item] + was[k + 1..]);
          if j < k { Cut(was, k, j); } else { Bent(was, k, j); }
        }
      }
    }

    lemma PlaceOf(s: seq<Node>, item: Node) returns (j: nat)
      requires item in s && Distinct(s)
      ensures j < |s| && s[j] == item && forall i | 0 <= i < |s| && s[i] == item :: i == j
    {
      j :| 0 <= j < |s| && s[j] == item;
    }

    lemma Doubled(s: seq<Node>, k: nat, j: nat, t: seq<Node>)
      requires k < |s| && j < |s| && t == s[..k + 1] + [s[j]] + s[k + 1..]
      ensures !Distinct(t)
    {
      assert t[k + 1] == s[j] == if j <= k then t[j] else t[j + 1];
    }

    // The two assignments ...
    method Relink(prev: Node, item: Node, ghost k: nat)
      requires Valid() && (prev in items ==> k < |items| && items[k] == prev)
      modifies prev, item
      ensures prev.next == item && (item != prev ==> item.next == old(prev.next)) && Distinct(items)
      ensures prev in items ==> head == items[0] && (item != prev ==> item.next == Following(items, k))
      ensures forall i {:trigger Following(items, i)} | 0 <= i < |items| && items[i] != prev && items[i] != item ::
                items[i].next == Following(items, i)
    {
      if prev in items { assert prev.next == Following(items, k); }
      item.next := prev.next;
      prev.next := item;
    }

    // ... and what they come to.

    lemma Untouched(was: seq<Node>, first: Node?)
      requires items == was && head == first && Distinct(was) && first == if |was| == 0 then null else was[0]
      requires forall i {:trigger Following(was, i)} | 0 <= i < |was| :: was[i].next == Following(was, i)
      ensures Valid()
    {}

    ghost method Inserted(was: seq<Node>, k: nat, item: Node)
      requires k < |was| && items == was && item !in was && Distinct(was) && head == was[0]
      requires was[k].next == item && item.next == Following(was, k)
      requires forall i {:trigger Following(was, i)} | 0 <= i < |was| && i != k :: was[i].next == Following(was, i)
      modifies this`items
      ensures Valid() && items == was[..k + 1] + [item] + was[k + 1..]
    {
      items := was[..k + 1] + [item] + was[k + 1..];
      forall i | 0 <= i < |items| ensures items[i].next == Following(items, i) {
        if i < k {
          assert was[i].next == Following(was, i);
        } else if i > k + 1 {
          assert was[i - 1].next == Following(was, i - 1);
        }
      }
    }

    ghost method Cut(was: seq<Node>, k: nat, j: nat)
      requires j < k < |was| && items == was && Distinct(was) && head == was[0]
      requires was[j].next == Following(was, k)
      requires forall i {:trigger Following(was, i)} | 0 <= i < |was| && i != k && i != j ::
                 was[i].next == Following(was, i)
      modifies this`items
      ensures Valid() && items == was[..j + 1] + was[k + 1..]
    {
      items := was[..j + 1] + was[k + 1..];
      forall i | 0 <= i < |items| ensures items[i].next == Following(items, i) {
        if i < j {
          assert was[i].next == Following(was, i);
        } else if i > j {
          assert was[i + k - j].next == Following(was, i + k - j);
        }
      }
    }

    lemma Bent(was: seq<Node>, k: nat, j: nat)
      requires k <= j < |was| && Distinct(was) && head == was[0] && was[k].next == was[j]
      requires j > k ==> was[j].next == Following(was, k)
      requires forall i {:trigger Following(was, i)} | 0 <= i < |was| && i != k && i != j ::
                 was[i].next == Following(was, i)
      ensures Circles(head, Circle(was, k, j), if j == k then k else k + 1)
    {
      var path := Circle(was, k, j);
      forall i | 0 <= i < |path| - 1 ensures path[i].next == path[i + 1] {
        if i < k {
          assert was[i].next == Following(was, i);
        } else if i > k + 1 {
          assert was[i - 1].next == Following(was, i - 1);
        }
      }
      if j > k + 1 { assert was[j - 1].next == Following(was, j - 1); }
    }
  }

  // The items in order until the first one comes again.
  function Circle(items: seq<Node>, k: nat, j: nat): seq<Node>
    requires k <= j < |items|
  {
    if j == k then items[..k + 1] else items[..k + 1] + [items[j]] + items[k + 1..j]
  }

  // Following the links from head leads along the path, and from its end back to one of its items.
  ghost predicate Circles(head: Node?, path: seq<Node>, back: nat)
    reads path
  {
    && back < |path| && head == path[0]
    && (forall i | 0 <= i < |path| - 1 :: path[i].next == path[i + 1])
    && path[|path| - 1].next == path[back]
  }

  // Then there is no list any more: no sequence of items that ends.
  lemma CircleIsNoList(head: Node?, path: seq<Node>, back: nat, items: seq<Node>)
    requires Circles(head, path, back)
    ensures !Linked(head, items)
  {
    if Linked(head, items) {
      assert items[|items| - 1].next == Following(items, |items| - 1);
      OnPath(head, path, back, items, |items| - 1);
    }
  }

  lemma {:induction false} OnPath(head: Node?, path: seq<Node>, back: nat, items: seq<Node>, i: nat)
    requires Circles(head, path, back) && Linked(head, items) && i < |items|
    ensures items[i] in path && items[i].next != null
    decreases i
  {
    if i == 0 {
      assert items[0] == path[0];
    } else {
      OnPath(head, path, back, items, i - 1);
      assert items[i - 1].next == Following(items, i - 1);
      OnwardsOnPath(head, path, back, items[i - 1]);
    }
    OnwardsOnPath(head, path, back, items[i]);
  }

  lemma OnwardsOnPath(head: Node?, path: seq<Node>, back: nat, n: Node)
    requires Circles(head, path, back) && n in path
    ensures n.next != null && n.next in path
  {
    var q :| 0 <= q < |path| && path[q] == n;
    assert q < |path| - 1 ==> path[q].next == path[q + 1];
  }
}
