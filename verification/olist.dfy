/**
 * The singly linked list `olist`: every link holds a copy of an
 * `elemSize`-byte element followed by the pointer to the next link; the list
 * keeps pointers to its first and last links.
 */
module OList {
  import opened Bytes

  class Link {
    var value: seq<Byte>
    var next: Link?

    constructor (value: seq<Byte>)
      ensures this.value == value && next == null
    {
      this.value := value;
      next := null;
    }
  }

  /** Position of `x` in `s`. */
  ghost function IndexOf(s: seq<Link>, x: Link): (i: nat)
    requires x in s
    ensures i < |s| && s[i] == x
  {
    if s[0] == x then 0 else 1 + IndexOf(s[1..], x)
  }

  ghost predicate Distinct(s: seq<Link>)
  {
    forall i, j :: 0 <= i < j < |s| ==> s[i] != s[j]
  }

  /** Splicing a link that is not yet in the list keeps the links distinct. */
  lemma SpliceDistinct(s: seq<Link>, i: nat, x: Link)
    requires Distinct(s) && x !in s && i < |s|
    ensures Distinct(s[..i + 1] + [x] + s[i + 1..])
  {
    var t := s[..i + 1] + [x] + s[i + 1..];
    forall j, k | 0 <= j < k < |t|
      ensures t[j] != t[k]
    {
      if j <= i && k > i + 1 {
        assert t[j] == s[j] && t[k] == s[k - 1];
      } else if j > i + 1 {
        assert t[j] == s[j - 1] && t[k] == s[k - 1];
      }
    }
  }

  /** Where each element of `s` sits once `x` is inserted after position `i`. */
  lemma Inserted<T>(s: seq<T>, i: nat, x: T, j: nat)
    requires i < |s| && j <= |s|
    ensures var t := s[..i + 1] + [x] + s[i + 1..];
      |t| == |s| + 1 && t[j] == (if j <= i then s[j] else if j == i + 1 then x else s[j - 1])
  {
  }

  lemma {:induction false} IndexOfDistinct(s: seq<Link>, i: nat)
    requires Distinct(s) && i < |s|
    ensures IndexOf(s, s[i]) == i
  {
    if i > 0 {
      assert s[0] != s[i];
      assert s[1..][i - 1] == s[i];
      IndexOfDistinct(s[1..], i - 1);
    }
  }

  class List {
    const elemSize: nat
    var first: Link?
    var last: Link?

    /** The links in list order. */
    ghost var Nodes: seq<Link>
    /** The element bytes in list order. */
    ghost var Contents: seq<seq<Byte>>
    ghost var Repr: set<Link>

    ghost predicate Valid()
      reads this, Repr
    {
      |Nodes| == |Contents| &&
      Distinct(Nodes) &&
      (forall i :: 0 <= i < |Nodes| ==>
        Nodes[i] in Repr && Nodes[i].value == Contents[i] && (i + 1 < |Nodes| ==> Nodes[i].next == Nodes[i + 1])) &&
      (|Nodes| == 0 ==> first == null && last == null) &&
      (|Nodes| > 0 ==> first == Nodes[0] && last == Nodes[|Nodes| - 1] && last.next == null)
    }

    /** `olist_create`: an empty list of `elemSize`-byte elements. */
    constructor (elemSize: nat)
      ensures Valid() && this.elemSize == elemSize && Contents == [] && Nodes == [] && Repr == {}
    {
      this.elemSize := elemSize;
      first, last := null, null;
      Nodes, Contents, Repr := [], [], {};
    }

    /**
     * `olist_insert`: copy `elem` into a new link placed directly after
     * `after`; into an empty list (where `after` must be null) the link
     * becomes both first and last.
     */
    method Insert(elem: array<Byte>, after: Link?) returns (link: Link)
      requires Valid() && elem.Length == elemSize
      requires (first == null) == (after == null)
      requires after != null ==> after in Nodes
      modifies this, Repr
      ensures Valid() && fresh(link) && link.value == old(elem[..])
      ensures Repr == old(Repr) + {link}
      ensures old(first) == null ==> Nodes == [link] && first == link && last == link
      ensures after != null ==>
        var i := IndexOf(old(Nodes), after);
        Nodes == old(Nodes)[..i + 1] + [link] + old(Nodes)[i + 1..] &&
        Contents == old(Contents)[..i + 1] + [elem[..]] + old(Contents)[i + 1..] &&
        first == old(first) &&
        (last == link <==> after == old(last))
    {
      link := new Link(elem[..]);
      if first == null {
        first, last := link, link;
        Nodes, Contents, Repr := [link], [link.value], Repr + {link};
      } else {
        SpliceAfter(link, after, IndexOf(Nodes, after));
      }
    }

    /** Link `link` in directly after `Nodes[i]`, the `olist_insert` pointer surgery. */
    method SpliceAfter(link: Link, after: Link, ghost i: nat)
      requires Valid() && i < |Nodes| && Nodes[i] == after
      requires link !in Repr && link.next == null
      modifies this, Repr, link
      ensures Valid()
      ensures Nodes == old(Nodes)[..i + 1] + [link] + old(Nodes)[i + 1..]
      ensures Contents == old(Contents)[..i + 1] + [link.value] + old(Contents)[i + 1..]
      ensures Repr == old(Repr) + {link} && link.value == old(link.value)
      ensures first == old(first) && (last == link <==> i + 1 == |old(Nodes)|)
    {
      ghost var n := |Nodes|;
      ghost var nodes, contents := Nodes, Contents;
      assert i + 1 < n ==> after.next == nodes[i + 1];
      link.next := after.next;
      after.next := link;
      if link.next == null {
        last := link;
      }
      Nodes := nodes[..i + 1] + [link] + nodes[i + 1..];
      Contents := contents[..i + 1] + [link.value] + contents[i + 1..];
      Repr := Repr + {link};
      forall j | 0 <= j < |Nodes|
        ensures Nodes[j] in Repr && Nodes[j].value == Contents[j] &&
                (j + 1 < |Nodes| ==> Nodes[j].next == Nodes[j + 1])
      {
        Inserted(nodes, i, link, j);
        Inserted(contents, i, link.value, j);
        if j + 1 < |Nodes| {
          Inserted(nodes, i, link, j + 1);
          if j < i {
            assert nodes[j] != after && nodes[j].next == old(nodes[j].next);
          } else if j > i + 1 {
            assert nodes[j - 1] != after && nodes[j - 1].next == old(nodes[j - 1].next);
          }
        }
      }
      SpliceDistinct(nodes, i, link);
    }

    /**
     * `olist_append`: copy `elem` into a new link after the current last one.
     * What comes back is the caller's own buffer, not the new link.
     */
    method Append(elem: array<Byte>) returns (r: array<Byte>)
      requires Valid() && elem.Length == elemSize
      modifies this, Repr
      ensures Valid() && r == elem
      ensures Contents == old(Contents) + [elem[..]]
      ensures |Nodes| == |old(Nodes)| + 1 && Nodes[..|old(Nodes)|] == old(Nodes)
      ensures fresh(last) && first == (if old(first) == null then last else old(first))
      ensures Repr == old(Repr) + {last}
    {
      var link := new Link(elem[..]);
      ghost var n := |Nodes|;
      ghost var nodes, contents := Nodes, Contents;
      if first == null {
        first, last := link, link;
      } else {
        forall j | 0 <= j < n - 1
          ensures nodes[j] != last
        {
          assert last == nodes[n - 1];
        }
        last.next := link;
        last := link;
      }
      Nodes, Contents := nodes + [link], contents + [link.value];
      Repr := Repr + {link};
      forall j | 0 <= j < |Nodes|
        ensures Nodes[j] in Repr && Nodes[j].value == Contents[j] &&
                (j + 1 < |Nodes| ==> Nodes[j].next == Nodes[j + 1])
      {
        if j < n {
          assert Nodes[j] == nodes[j] && Contents[j] == contents[j];
        }
      }
      r := elem;
    }

    /** `olist_get_first` */
    function GetFirst(): (l: Link?)
      reads this, Repr
      requires Valid()
      ensures l == null <==> Contents == []
      ensures l != null ==> l.value == Contents[0]
    {
      first
    }

    /** `olist_get_next`: the link after `l`, null after the last one. */
    function GetNext(l: Link): (n: Link?)
      reads this, Repr
      requires Valid() && l in Nodes
      ensures var i := IndexOf(Nodes, l);
        if i + 1 < |Nodes| then n == Nodes[i + 1] else n == null
    {
      l.next
    }

    /** Walk from `GetFirst` along `GetNext` and collect every element. */
    method Elements() returns (vals: seq<seq<Byte>>)
      requires Valid()
      ensures vals == Contents
    {
      var curr := GetFirst();
      vals := [];
      ghost var i := 0;
      while curr != null
        invariant 0 <= i <= |Nodes|
        invariant curr == (if i < |Nodes| then Nodes[i] else null)
        invariant vals == Contents[..i]
        decreases |Nodes| - i
      {
        vals := vals + [curr.value];
        curr := GetNext(curr);
        i := i + 1;
      }
    }
  }

  /** A fresh array holding `bytes`, the caller-side element buffer. */
  method Buffer(bytes: seq<Byte>) returns (a: array<Byte>)
    ensures fresh(a) && a[..] == bytes
  {
    a := new Byte[|bytes|](j requires 0 <= j < |bytes| => bytes[j]);
  }

  /** Ten inserts of 0..9, each after the link the previous insert returned. */
  method InsertTen(list: List) returns (mid: Link?)
    requires list.Valid() && list.elemSize == 4 && list.Nodes == [] && list.Repr == {}
    modifies list
    ensures list.Valid() && fresh(list.Repr)
    ensures list.Contents == seq(10, k requires 0 <= k < 10 => Le32(k))
    ensures |list.Nodes| == 10 && mid == list.Nodes[4]
  {
    var prev: Link? := null;
    mid := prev;
    var i := 0;
    while i < 10
      invariant 0 <= i <= 10 && list.Valid() && list.elemSize == 4
      invariant |list.Nodes| == i && fresh(list.Repr)
      invariant list.Contents == seq(i, k requires 0 <= k < i => Le32(k))
      invariant i == 0 ==> prev == null
      invariant i > 0 ==> prev == list.Nodes[i - 1]
      invariant i > 4 ==> mid == list.Nodes[4]
    {
      var buf := Buffer(Le32(i));
      var link := list.Insert(buf, prev);
      if i == 4 {
        mid := link;
      }
      prev := link;
      i := i + 1;
    }
  }

  /** The expected walk of the insertion scenario. */
  const SCENARIO: seq<nat> := [0, 1, 2, 3, 4, 666, 5, 6, 7, 8, 9, 777, 888]

  /** The scenario's walk as stored element bytes. */
  ghost function ScenarioBytes(n: nat): seq<seq<Byte>>
    requires n <= |SCENARIO|
  {
    seq(n, k requires 0 <= k < n => Le32(SCENARIO[k]))
  }

  /** 666 goes in after the link of 4. */
  method InsertMid(list: List, mid: Link?)
    requires list.Valid() && list.elemSize == 4 && |list.Nodes| == 10 && mid == list.Nodes[4]
    requires list.Contents == seq(10, k requires 0 <= k < 10 => Le32(k))
    modifies list, list.Repr
    ensures list.Valid() && fresh(list.Repr - old(list.Repr))
    ensures list.Contents == ScenarioBytes(11)
  {
    ghost var ten := list.Contents;
    IndexOfDistinct(list.Nodes, 4);
    var b666 := Buffer(Le32(666));
    var _ := list.Insert(b666, mid);
    assert list.Contents == ten[..5] + [Le32(666)] + ten[5..];
  }

  /** 777 and 888 are appended at the end. */
  method AppendTwo(list: List)
    requires list.Valid() && list.elemSize == 4 && list.Contents == ScenarioBytes(11)
    modifies list, list.Repr
    ensures list.Valid() && list.Contents == ScenarioBytes(13)
  {
    var b777 := Buffer(Le32(777));
    var _ := list.Append(b777);
    var b888 := Buffer(Le32(888));
    var _ := list.Append(b888);
    assert list.Contents == ScenarioBytes(11) + [Le32(777), Le32(888)];
  }

  /**
   * The insertion scenario: ten inserts each after the previous link, 666
   * after the link of 4, then appends of 777 and 888; walking the list gives
   * 0..4, 666, 5..9, 777, 888.
   */
  method InsertScenario() returns (vals: seq<seq<Byte>>)
    ensures vals == ScenarioBytes(|SCENARIO|)
  {
    var list := new List(4);
    var mid := InsertTen(list);
    InsertMid(list, mid);
    AppendTwo(list);
    vals := list.Elements();
  }
}
