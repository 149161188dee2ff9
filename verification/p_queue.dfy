/** The unsorted-array priority queue (lower value = higher priority) with its cached minimum. */
module PQueues {
  import opened Basics

  const UINT64_MAX: nat := 0xFFFF_FFFF_FFFF_FFFF

  datatype Item<T> = Item(ptr: T, val: nat)

  class PQueue<T(0)> {
    const items: array<Item<T>>
    var size: nat
    var maxPriority: nat
    var maxPriorityIndex: nat

    ghost function Contents(): seq<Item<T>>
      reads this, items
      requires size <= items.Length
    {
      items[..size]
    }

    /** The cached value is always the minimum, capped at UINT64_MAX. The cached index is
        meaningful whenever something below that cap is stored. */
    ghost predicate Valid()
      reads this, items
    {
      && size <= items.Length
      && (maxPriorityIndex == 0 || maxPriorityIndex < items.Length)
      && maxPriority <= UINT64_MAX
      && (forall i :: 0 <= i < size ==> maxPriority <= items[i].val <= UINT64_MAX)
      && (maxPriority < UINT64_MAX ==> maxPriorityIndex < size && items[maxPriorityIndex].val == maxPriority)
    }

    /** Whether the cached index points at a stored item; it need not while only UINT64_MAX values are stored. */
    predicate Sound()
      reads this
    {
      maxPriorityIndex < size
    }

    constructor (max: nat)
      ensures Valid() && size == 0 && maxPriorityIndex == 0 && items.Length == max && fresh(items)
    {
      items := new Item<T>[max];
      size := 0;
      maxPriority := UINT64_MAX;
      maxPriorityIndex := 0;
    }

    method Insert(ptr: T, value: nat) returns (ok: bool)
      requires Valid() && value <= UINT64_MAX
      modifies this`size, this`maxPriority, this`maxPriorityIndex, items
      ensures Valid()
      ensures ok <==> old(size) < items.Length
      ensures Contents() == if ok then old(Contents()) + [Item(ptr, value)] else old(Contents())
      ensures ok ==> (Sound() <==> value < UINT64_MAX || old(maxPriorityIndex <= size))
      ensures maxPriorityIndex == if ok && value < old(maxPriority) then old(size) else old(maxPriorityIndex)
    {
      if size == items.Length {
        return false;
      }
      items[size] := Item(ptr, value);
      if value < maxPriority {
        maxPriority := value;
        maxPriorityIndex := size;
      }
      size := size + 1;
      return true;
    }

    /** The cached pair for the stored items s: the least value, capped, and where it is. */
    static ghost predicate LeastOf(s: seq<Item<T>>, best: nat, at: nat, stale: nat) {
      && best <= UINT64_MAX
      && (forall k :: 0 <= k < |s| ==> best <= s[k].val)
      && if best < UINT64_MAX then at < |s| && s[at].val == best else at == stale
    }

    static lemma LeastNext(s: seq<Item<T>>, x: Item<T>, best: nat, at: nat, stale: nat)
      requires LeastOf(s, best, at, stale) && x.val <= UINT64_MAX
      ensures if x.val < best then LeastOf(s + [x], x.val, |s|, stale) else LeastOf(s + [x], best, at, stale)
    {}

    static lemma Nothing(stale: nat)
      ensures LeastOf([], UINT64_MAX, stale, stale)
    {}

    lemma InBounds()
      requires Valid()
      ensures size <= items.Length && Contents() == items[..size]
      ensures forall x :: x in items[..size] ==> x.val <= UINT64_MAX
    {}

    /** Which item leaves when the cached index is index: a stale index makes no gap, and the last item goes. */
    static function Leaves(size: nat, index: nat): (at: nat)
      requires size > 0
      ensures at < size
    {
      if index < size then index else size - 1
    }

    /** The first i slots hold what stays; the others have not been touched. */
    ghost predicate Shifted(was: seq<Item<T>>, rest: seq<Item<T>>, i: nat)
      reads items
    {
      && |was| == items.Length && i <= |rest| < |was|
      && forall k :: 0 <= k < items.Length ==> items[k] == if k < i then rest[k] else was[k]
    }

    lemma NoneShifted(rest: seq<Item<T>>)
      requires |rest| < items.Length
      ensures Shifted(items[..], rest, 0)
    {}

    method Shift(i: nat, index: nat, ghost was: seq<Item<T>>, ghost rest: seq<Item<T>>)
      requires i < |rest| && Shifted(was, rest, i) && rest[i] == was[if i < index then i else i + 1]
      modifies items
      ensures Shifted(was, rest, i + 1) && items[i] == rest[i]
    {
      if i >= index {
        items[i] := items[i + 1];
      }
    }

    lemma AllShifted(was: seq<Item<T>>, rest: seq<Item<T>>)
      requires Shifted(was, rest, |rest|)
      ensures items[..|rest|] == rest && items[|rest|..] == was[|rest|..]
    {}

    /** The loop of pop: closes the gap at index and finds the new minimum among what stays. */
    method CloseGap(index: nat)
      requires Valid() && size > 0
      modifies this`maxPriority, this`maxPriorityIndex, items
      ensures items[..size - 1] == Without(old(Contents()), Leaves(size, index))
      ensures items[size - 1..] == old(items[size - 1..])
      ensures LeastOf(items[..size - 1], maxPriority, maxPriorityIndex, old(maxPriorityIndex))
      ensures forall k :: 0 <= k < size - 1 ==> items[k].val <= UINT64_MAX
    {
      hide Without, PQueue.Valid, PQueue.Contents, PQueue.LeastOf, PQueue.Shifted;
      InBounds();
      maxPriority := UINT64_MAX;
      ghost var n, was, stale := size - 1, items[..], maxPriorityIndex;
      ghost var at := Leaves(size, index);
      ghost var rest := Without(items[..size], at);
      WithoutAt(items[..size], at);
      Nothing(stale);
      NoneShifted(rest);
      var i := 0;
      while i < size - 1
        invariant 0 <= i <= n == size - 1
        invariant Shifted(was, rest, i)
        invariant LeastOf(rest[..i], maxPriority, maxPriorityIndex, stale)
      {
        Shift(i, index, was, rest);
        assert rest[..i + 1] == rest[..i] + [rest[i]];
        LeastNext(rest[..i], rest[i], maxPriority, maxPriorityIndex, stale);
        if items[i].val < maxPriority {
          maxPriorityIndex := i;
          maxPriority := items[i].val;
        }
        i := i + 1;
      }
      AllShifted(was, rest);
      assert rest == rest[..i];
    }

    /**
     * Hands out what the cached index points at, closes the gap and rescans for the next one. With a
     * stale index that is no stored item, and the last stored item is lost.
     */
    method Pop() returns (ptr: T, ghost at: nat)
      requires Valid() && size > 0
      modifies this`size, this`maxPriority, this`maxPriorityIndex, items
      ensures Valid() && size == old(size) - 1
      ensures ptr == old(items[maxPriorityIndex].ptr) && at == old(Leaves(size, maxPriorityIndex))
      ensures old(Sound()) ==> at == old(maxPriorityIndex) && ptr == old(Contents()[at].ptr)
      ensures forall i :: 0 <= i < old(size) ==> old(items[at].val) <= old(items[i].val)
      ensures Contents() == Without(old(Contents()), at)
      ensures items[size..] == old(items[size - 1..])
      ensures (forall i :: 0 <= i < size ==> items[i].val == UINT64_MAX) ==> maxPriorityIndex == old(maxPriorityIndex)
      // The index goes stale when the last item is popped and only UINT64_MAX values are left.
      ensures Sound() <==> size > 0 && ((exists i :: 0 <= i < size && items[i].val < UINT64_MAX) || old(maxPriorityIndex) < size)
    {
      var index := maxPriorityIndex;
      at := Leaves(size, index);
      ptr := items[index].ptr;
      CloseGap(index);
      size := size - 1;
    }
  }

  /**
   * An item at the cap waits while a better one behind it is popped. The index goes stale: the next pop
   * hands the better one out again, and the waiting item is lost.
   */
  method StaleIndex<T(0)>(first: T, second: T) returns (q: PQueue<T>, once: T, stale: bool, again: T)
    ensures once == second && stale && again == second && q.size == 0
  {
    q := new PQueue(4);
    var ok := q.Insert(first, UINT64_MAX);
    ok := q.Insert(second, 5);
    assert q.Contents() == [Item(first, UINT64_MAX), Item(second, 5)];
    ghost var at;
    once, at := q.Pop();
    stale := q.size == 1 && !q.Sound();
    again, at := q.Pop();
  }
}
