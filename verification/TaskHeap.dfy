/** The task queue of common/scheduler.go: a slice of tasks kept in binary-heap
    order by next execution time.  `Less`, `Swap`, `Push` and `Pop` are the
    repository's methods; `Up`, `Down`, `Init`, `HeapPush` and `HeapPop` are the
    algorithms Go's container/heap package runs over them. */
module TaskQueue {

  /** What the scheduler reads of a task.  Times and intervals are nanoseconds. */
  datatype Task = Task(id: string, nextTime: int, repeat: bool, interval: int)

  /** In the binary tree laid out in an array, entry `p` is the parent of entry `k`. */
  predicate IsParent(p: nat, k: nat) {
    k == 2 * p + 1 || k == 2 * p + 2
  }

  /** No child of an entry at `lo` or above is earlier than its parent. */
  ghost predicate OrderedFrom(s: seq<Task>, lo: nat) {
    forall p, k {:trigger IsParent(p, k)} | lo <= p < |s| && 0 <= k < |s| && IsParent(p, k) ::
      s[p].nextTime <= s[k].nextTime
  }

  ghost predicate HeapOrder(s: seq<Task>) {
    OrderedFrom(s, 0)
  }

  /** `t` is an entry of the queue and none is scheduled before it. */
  ghost predicate IsEarliest(t: Task, queue: multiset<Task>) {
    t in queue && forall u :: u in queue ==> t.nextTime <= u.nextTime
  }

  /** `t` is `s` with entries `i` and `j` exchanged. */
  ghost predicate IsSwap<T>(s: seq<T>, t: seq<T>, i: nat, j: nat)
    requires i < |s| && j < |s|
  {
    && |t| == |s| && t[i] == s[j] && t[j] == s[i]
    && forall k :: 0 <= k < |s| && k != i && k != j ==> t[k] == s[k]
  }

  lemma SwapKeepsContents<T>(s: seq<T>, t: seq<T>, i: nat, j: nat)
    requires i < |s| && j < |s| && IsSwap(s, t, i, j)
    ensures multiset(t) == multiset(s)
  {
    assert t == s[i := s[j]][j := s[i]];
  }

  /** In heap order the root is earliest, although only parents and children are compared. */
  lemma {:induction false} RootBelow(s: seq<Task>, k: nat)
    requires HeapOrder(s) && k < |s|
    ensures s[0].nextTime <= s[k].nextTime
    decreases k
  {
    if k == 0 {
    } else {
      var p: nat := (k - 1) / 2;
      RootBelow(s, p);
      assert IsParent(p, k);
    }
  }

  lemma RootIsEarliest(s: seq<Task>)
    requires HeapOrder(s) && s != []
    ensures IsEarliest(s[0], multiset(s))
  {
    forall u | u in multiset(s) ensures s[0].nextTime <= u.nextTime {
      var k :| 0 <= k < |s| && s[k] == u;
      RootBelow(s, k);
    }
  }

  /** Heap order everywhere except that the entry at `j` may be earlier than its parent. */
  ghost predicate OrderedExceptUp(s: seq<Task>, j: nat)
    requires j < |s|
  {
    && (forall p, k {:trigger IsParent(p, k)} | 0 <= p < |s| && 0 <= k < |s| && IsParent(p, k) && k != j ::
          s[p].nextTime <= s[k].nextTime)
    && (forall p, k {:trigger IsParent(p, j), IsParent(j, k)} |
          0 <= p < |s| && 0 <= k < |s| && IsParent(p, j) && IsParent(j, k) :: s[p].nextTime <= s[k].nextTime)
  }

  /** Order from `lo` on, except that the entry at `i` may be later than its children. */
  ghost predicate OrderedExceptDown(s: seq<Task>, lo: nat, i: nat) {
    && (forall p, k {:trigger IsParent(p, k)} | lo <= p < |s| && 0 <= k < |s| && IsParent(p, k) && p != i ::
          s[p].nextTime <= s[k].nextTime)
    && (forall p, k {:trigger IsParent(p, i), IsParent(i, k)} |
          lo <= p < |s| && 0 <= k < |s| && IsParent(p, i) && IsParent(i, k) :: s[p].nextTime <= s[k].nextTime)
  }

  lemma UpStep(s: seq<Task>, t: seq<Task>, i: nat, j: nat)
    requires j < |s| && OrderedExceptUp(s, j) && IsParent(i, j) && s[j].nextTime < s[i].nextTime
    requires IsSwap(s, t, i, j)
    ensures OrderedExceptUp(t, i)
  {
    forall p: nat, k: nat | p < |t| && k < |t| && IsParent(p, k) && k != i
      ensures t[p].nextTime <= t[k].nextTime
    {
      assert IsParent(p, k) && IsParent(i, j);
      if p == j {
        assert s[i].nextTime <= s[k].nextTime;
      } else if p == i && k != j {
        assert s[i].nextTime <= s[k].nextTime;
      }
    }
    forall p: nat, k: nat | p < |t| && k < |t| && IsParent(p, i) && IsParent(i, k)
      ensures t[p].nextTime <= t[k].nextTime
    {
      assert s[p].nextTime <= s[i].nextTime;
      if k != j {
        assert s[i].nextTime <= s[k].nextTime;
      }
    }
  }

  lemma UpDone(s: seq<Task>, j: nat)
    requires j < |s| && OrderedExceptUp(s, j)
    requires j > 0 ==> s[(j - 1) / 2].nextTime <= s[j].nextTime
    ensures HeapOrder(s)
  {
    forall p: nat, k: nat | p < |s| && k < |s| && IsParent(p, k) ensures s[p].nextTime <= s[k].nextTime {
      assert k == j ==> p == (j - 1) / 2;
    }
  }

  lemma DownStep(s: seq<Task>, t: seq<Task>, lo: nat, i: nat, j: nat)
    requires lo <= i < |s| && j < |s| && OrderedExceptDown(s, lo, i) && IsParent(i, j)
    requires s[j].nextTime < s[i].nextTime
    requires forall k: nat :: k < |s| && IsParent(i, k) ==> s[j].nextTime <= s[k].nextTime
    requires IsSwap(s, t, i, j)
    ensures OrderedExceptDown(t, lo, j)
  {
    forall p: nat, k: nat | lo <= p < |t| && k < |t| && IsParent(p, k) && p != j
      ensures t[p].nextTime <= t[k].nextTime
    {
      assert IsParent(p, k) && IsParent(i, j);
      if k == i {
        assert s[p].nextTime <= s[j].nextTime;
      } else if p == i {
        assert s[j].nextTime <= s[k].nextTime;
      }
    }
    forall p: nat, k: nat | lo <= p < |t| && k < |t| && IsParent(p, j) && IsParent(j, k)
      ensures t[p].nextTime <= t[k].nextTime
    {
      assert p == i;
      assert s[j].nextTime <= s[k].nextTime;
    }
  }

  lemma DownDone(s: seq<Task>, lo: nat, i: nat)
    requires lo <= i <= |s| && OrderedExceptDown(s, lo, i)
    requires forall k: nat :: i < |s| && k < |s| && IsParent(i, k) ==> s[i].nextTime <= s[k].nextTime
    ensures OrderedFrom(s, lo)
  {
  }

  lemma SwapWithin<T>(s: seq<T>, t: seq<T>, n: nat, i: nat, j: nat)
    requires i < n <= |s| && j < n && IsSwap(s, t, i, j)
    ensures IsSwap(s[..n], t[..n], i, j)
    ensures t[n..] == s[n..]
    ensures multiset(t[..n]) == multiset(s[..n])
  {
    SwapKeepsContents(s[..n], t[..n], i, j);
  }

  /** Exchanging the root with the last entry and cutting that off leaves only the root out of place. */
  lemma RootReplaced(s: seq<Task>, t: seq<Task>, n: nat)
    requires HeapOrder(s) && |s| == n + 1 && IsSwap(s, t, 0, n)
    ensures OrderedFrom(t[..n], 1)
    ensures t[n..] == [s[0]]
    ensures multiset(t[..n]) == multiset(s) - multiset{s[0]}
  {
    SwapKeepsContents(s, t, 0, n);
    assert t[..n] + [s[0]] == t;
    assert multiset(t[..n]) + multiset{s[0]} == multiset(t);
  }

  class TaskHeap {
    var data: array<Task>
    var len: nat

    ghost predicate Valid()
      reads this
    {
      len <= data.Length
    }

    /** The slice. */
    ghost function Items(): (s: seq<Task>)
      requires Valid()
      reads this, data
      ensures |s| == len
    {
      data[..len]
    }

    constructor ()
      ensures Valid() && fresh(data) && Items() == []
    {
      data := new Task[0];
      len := 0;
    }

    method Less(i: nat, j: nat) returns (r: bool)
      requires Valid() && i < len && j < len
      ensures r <==> Items()[i].nextTime < Items()[j].nextTime
    {
      r := data[i].nextTime < data[j].nextTime;
    }

    method Swap(i: nat, j: nat)
      requires Valid() && i < len && j < len
      modifies data
      ensures Valid() && IsSwap(old(Items()), Items(), i, j)
    {
      data[i], data[j] := data[j], data[i];
    }

    /** Go's append: in place while there is capacity, otherwise into a larger copy. */
    method Push(x: Task)
      requires Valid()
      modifies this, data
      ensures Valid() && (data == old(data) || fresh(data))
      ensures Items() == old(Items()) + [x]
    {
      if len == data.Length {
        var bigger := new Task[2 * len + 1];
        forall k | 0 <= k < len {
          bigger[k] := data[k];
        }
        data := bigger;
      }
      data[len] := x;
      len := len + 1;
    }

    method Pop() returns (x: Task)
      requires Valid() && len > 0
      modifies this`len
      ensures Valid() && x == old(Items())[old(len) - 1]
      ensures Items() == old(Items())[..old(len) - 1]
    {
      x := data[len - 1];
      len := len - 1;
    }

    method Up(j0: nat)
      requires Valid() && j0 < len && OrderedExceptUp(Items(), j0)
      modifies data
      ensures Valid() && HeapOrder(Items())
      ensures multiset(Items()) == old(multiset(Items()))
    {
      var j: nat := j0;
      while true
        invariant Valid() && j < len && OrderedExceptUp(Items(), j)
        invariant multiset(Items()) == old(multiset(Items()))
        decreases j
      {
        var i: nat := if j == 0 then 0 else (j - 1) / 2;
        if i == j {
          UpDone(Items(), j);
          break;
        }
        var less := Less(j, i);
        if !less {
          UpDone(Items(), j);
          break;
        }
        ghost var before := Items();
        Swap(i, j);
        UpStep(before, Items(), i, j);
        SwapKeepsContents(before, Items(), i, j);
        j := i;
      }
    }

    /** The earlier child of `i` within the first `n` entries, the left one on a tie. */
    method EarlierChild(i: nat, n: nat) returns (j: nat)
      requires Valid() && n <= len && 2 * i + 1 < n
      ensures j < n && IsParent(i, j)
      ensures forall k: nat :: k < n && IsParent(i, k) ==> Items()[j].nextTime <= Items()[k].nextTime
    {
      j := 2 * i + 1;
      if j + 1 < n {
        var right := Less(j + 1, j);
        if right {
          j := j + 1;
        }
      }
    }

    /** Sifts down within the first `n` entries; the rest of the slice is untouched. */
    method Down(i0: nat, n: nat)
      requires Valid() && i0 <= n <= len && OrderedFrom(Items()[..n], i0 + 1)
      modifies data
      ensures Valid() && OrderedFrom(Items()[..n], i0)
      ensures Items()[n..] == old(Items()[n..])
      ensures multiset(Items()[..n]) == old(multiset(Items()[..n]))
    {
      var i: nat := i0;
      while true
        invariant Valid() && i0 <= i <= n && OrderedExceptDown(Items()[..n], i0, i)
        invariant Items()[n..] == old(Items()[n..])
        invariant multiset(Items()[..n]) == old(multiset(Items()[..n]))
        decreases n - i
      {
        ghost var before := Items();
        if 2 * i + 1 >= n {
          DownDone(before[..n], i0, i);
          break;
        }
        var j := EarlierChild(i, n);
        var less := Less(j, i);
        if !less {
          DownDone(before[..n], i0, i);
          break;
        }
        Swap(i, j);
        SwapWithin(before, Items(), n, i, j);
        DownStep(before[..n], Items()[..n], i0, i, j);
        i := j;
      }
    }

    /** Establishes heap order on an arbitrary slice. */
    method Init()
      requires Valid()
      modifies data
      ensures Valid() && HeapOrder(Items())
      ensures multiset(Items()) == old(multiset(Items()))
    {
      var i := len / 2;
      while i > 0
        invariant Valid() && 0 <= i <= len / 2
        invariant OrderedFrom(Items(), i)
        invariant multiset(Items()) == old(multiset(Items()))
      {
        i := i - 1;
        assert Items()[..len] == Items();
        Down(i, len);
        assert Items()[..len] == Items();
      }
    }

    method HeapPush(x: Task)
      requires Valid() && HeapOrder(Items())
      modifies this, data
      ensures Valid() && (data == old(data) || fresh(data))
      ensures HeapOrder(Items())
      ensures multiset(Items()) == old(multiset(Items())) + multiset{x}
    {
      Push(x);
      Up(len - 1);
    }

    /** The part of heap.Pop before the slice shrinks: the root ends up last. */
    method RootToEnd()
      requires Valid() && HeapOrder(Items()) && len > 0
      modifies data
      ensures Valid() && HeapOrder(Items()[..len - 1])
      ensures Items()[len - 1..] == [old(Items()[0])]
      ensures multiset(Items()[..len - 1]) == old(multiset(Items())) - multiset{old(Items()[0])}
    {
      var n: nat := len - 1;
      ghost var before := Items();
      Swap(0, n);
      RootReplaced(before, Items(), n);
      Down(0, n);
    }

    /** Takes out an earliest entry and nothing else. */
    method HeapPop() returns (x: Task)
      requires Valid() && HeapOrder(Items()) && len > 0
      modifies this`len, data
      ensures Valid() && HeapOrder(Items())
      ensures IsEarliest(x, old(multiset(Items())))
      ensures multiset(Items()) == old(multiset(Items())) - multiset{x}
    {
      RootIsEarliest(Items());
      RootToEnd();
      assert Items()[len - 1] == Items()[len - 1..][0];
      x := Pop();
    }
  }
}
