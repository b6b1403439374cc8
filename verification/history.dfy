/** The page's conversion history (`addToHistory`, `removeFromHistory`,
    `clearHistory` and the load in the mount effect): a newest-first list of
    at most ten records, mirrored into one slot of the browser's key-value
    store, which is either absent or holds the whole list. */
module History {
  import opened Wrappers

  /** One completed conversion. `id` is the clock reading at creation and
      `date` the server's last-update time as display text. */
  datatype Record = Record(
    id: int,
    amount: real,
    fromCurrency: string,
    convertedAmount: real,
    toCurrency: string,
    date: string)

  const Capacity: nat := 10

  /** The history in memory together with the store slot that mirrors it. */
  datatype Log = Log(entries: seq<Record>, slot: Option<seq<Record>>)

  /** Reading the slot: an absent key reads as the empty history. */
  function Load(slot: Option<seq<Record>>): seq<Record> {
    slot.GetOr([])
  }

  /** The slot reads back as exactly the history in memory. */
  predicate Mirrored(log: Log) {
    Load(log.slot) == log.entries
  }

  /** `h` is `whole` with some entries left out, the rest in order. */
  predicate IsSubsequence(h: seq<Record>, whole: seq<Record>)
    decreases |whole|
  {
    if h == [] then true
    else if whole == [] then false
    else if h[0] == whole[0] then IsSubsequence(h[1..], whole[1..])
    else IsSubsequence(h, whole[1..])
  }

  /** Prepend the new record, keep the first ten, write the slot. */
  function Add(log: Log, item: Record): (r: Log)
    ensures |r.entries| == if |log.entries| < Capacity then |log.entries| + 1 else Capacity
    ensures r.entries[0] == item
    ensures forall i :: 1 <= i < |r.entries| ==> r.entries[i] == log.entries[i - 1]
    ensures Mirrored(r)
  {
    var kept := if |log.entries| > Capacity - 1 then log.entries[..Capacity - 1] else log.entries;
    var entries := [item] + kept;
    Log(entries, Some(entries))
  }

  /** The entries whose id differs from `id`, in order. */
  function Without(h: seq<Record>, id: int): (r: seq<Record>)
    ensures forall x :: x in r ==> x in h && x.id != id
    ensures forall x :: x in h && x.id != id ==> x in r
    ensures IsSubsequence(r, h) && |r| <= |h|
    ensures (forall x :: x in h ==> x.id != id) ==> r == h
    ensures forall x: Record | x.id != id :: multiset(r)[x] == multiset(h)[x]
    decreases |h|
  {
    if h == [] then []
    else
      var rest := Without(h[1..], id);
      CountsStep(h, rest, id);
      if h[0].id != id then [h[0]] + rest else rest
  }

  /** One step of `Without`'s occurrence count: keeping or dropping the head
      extends the count from the tail to the whole list. */
  lemma {:induction false} CountsStep(h: seq<Record>, rest: seq<Record>, id: int)
    requires h != []
    requires forall x: Record | x.id != id :: multiset(rest)[x] == multiset(h[1..])[x]
    ensures var r := if h[0].id != id then [h[0]] + rest else rest;
      forall x: Record | x.id != id :: multiset(r)[x] == multiset(h)[x]
  {
    assert h == [h[0]] + h[1..];
    assert multiset(h) == multiset{h[0]} + multiset(h[1..]);
    assert multiset([h[0]] + rest) == multiset{h[0]} + multiset(rest);
  }

  /** Drop the entries with that id and write the slot, even when nothing
      was dropped. */
  function Remove(log: Log, id: int): (r: Log)
    ensures r.entries == Without(log.entries, id)
    ensures |r.entries| <= |log.entries|
    ensures r.slot == Some(r.entries)
  {
    var entries := Without(log.entries, id);
    Log(entries, Some(entries))
  }

  /** Nothing happens to an empty history or without confirmation;
      otherwise the history empties and the key is deleted. */
  function Clear(log: Log, confirmed: bool): (r: Log)
    ensures log.entries == [] || !confirmed ==> r == log
    ensures log.entries != [] && confirmed ==> r.entries == [] && r.slot.None?
    ensures Mirrored(log) ==> Mirrored(r)
  {
    if |log.entries| == 0 then log
    else if !confirmed then log
    else Log([], None)
  }

  // ---------------------------------------------------------------------

  /** Every operation keeps the slot in step with memory, and the history
      within the capacity once it is there. */
  lemma {:induction false} OperationsKeepInvariant(log: Log, item: Record, id: int, confirmed: bool)
    requires Mirrored(log) && |log.entries| <= Capacity
    ensures Mirrored(Add(log, item)) && |Add(log, item).entries| <= Capacity
    ensures Mirrored(Remove(log, id)) && |Remove(log, id).entries| <= Capacity
    ensures Mirrored(Clear(log, confirmed)) && |Clear(log, confirmed).entries| <= Capacity
  {
  }

  /** Adding to a full history evicts exactly the oldest entry. */
  lemma {:induction false} AddToFullEvictsOldest(log: Log, item: Record)
    requires |log.entries| == Capacity
    requires item != log.entries[Capacity - 1]
    requires forall i :: 0 <= i < Capacity - 1 ==> log.entries[i] != log.entries[Capacity - 1]
    ensures |Add(log, item).entries| == Capacity
    ensures log.entries[Capacity - 1] !in Add(log, item).entries
    ensures Add(log, item).entries[1..] == log.entries[..Capacity - 1]
  {
    var r := Add(log, item).entries;
    assert forall i :: 1 <= i < |r| ==> r[i] == log.entries[i - 1];
  }

  /** A confirmed clear of a non-empty history deletes the key, and loading
      the deleted key gives the empty history. */
  lemma {:induction false} ClearThenLoad(log: Log)
    requires log.entries != []
    ensures Clear(log, true).slot == None
    ensures Load(Clear(log, true).slot) == []
  {
  }

  /** Removing an id no entry carries changes nothing in memory. */
  lemma {:induction false} RemoveAbsentId(log: Log, id: int)
    requires forall x :: x in log.entries ==> x.id != id
    ensures Remove(log, id).entries == log.entries
  {
  }
}
