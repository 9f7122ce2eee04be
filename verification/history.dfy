/** The calculation history (`addHistory`, script.js): the newest entry
    first, at most fifty entries kept when the list starts within the cap. */
module History {

  /** One finished calculation; `time` is the clock reading passed in. */
  datatype Entry = Entry(expr: seq<char>, result: seq<char>, time: int)

  const Capacity: nat := 50

  /** `addHistory`: put the entry in front, then drop the last entry once
      if the list has grown past the cap. */
  function AddHistory(h: seq<Entry>, item: Entry): (r: seq<Entry>)
    ensures |r| > 0 && r[0] == item
    ensures r[1..] <= h
    ensures |h| < Capacity ==> r[1..] == h
    ensures |h| >= Capacity ==> |r| == |h|
    ensures |h| <= Capacity ==> |r| <= Capacity
  {
    var u := [item] + h;
    if |u| > Capacity then u[..|u| - 1] else u
  }

  /** The first `n` elements, or all of them when there are fewer. */
  function Take<T>(s: seq<T>, n: nat): (r: seq<T>)
    ensures r <= s && |r| == if |s| <= n then |s| else n
  {
    if |s| <= n then s else s[..n]
  }

  /** The entries newest first, for entries listed oldest first. */
  function Reverse<T>(s: seq<T>): seq<T> {
    if |s| == 0 then [] else Reverse(s[1..]) + [s[0]]
  }

  /** The history after recording `items` one after another. */
  function Record(h: seq<Entry>, items: seq<Entry>): seq<Entry>
    decreases |items|
  {
    if |items| == 0 then h else Record(AddHistory(h, items[0]), items[1..])
  }

  /** Within the cap, one `addHistory` is "prepend, keep the first fifty". */
  lemma AddHistoryTakes(h: seq<Entry>, item: Entry)
    requires |h| <= Capacity
    ensures AddHistory(h, item) == Take([item] + h, Capacity)
  {
  }

  lemma TakeTake<T>(a: seq<T>, b: seq<T>, n: nat)
    ensures Take(a + Take(b, n), n) == Take(a + b, n)
  {
    if |b| > n {
      if |a| + n <= n {
        assert a + b[..n] == (a + b)[..n];
      } else {
        assert (a + b[..n])[..n] == (a + b)[..n];
      }
    }
  }

  /** Starting within the cap, recording a run of calculations leaves the
      most recent ones, newest first, and nothing older than the cap allows:
      the list is the fifty newest of everything recorded and everything
      that was there before. */
  lemma {:induction false} RecordKeepsNewest(h: seq<Entry>, items: seq<Entry>)
    requires |h| <= Capacity
    ensures Record(h, items) == Take(Reverse(items) + h, Capacity)
    ensures |Record(h, items)| <= Capacity
    decreases |items|
  {
    if |items| > 0 {
      var x, rest := items[0], items[1..];
      RecordKeepsNewest(AddHistory(h, x), rest);
      RecordStep(h, x, Reverse(rest));
      assert Reverse(items) == Reverse(rest) + [x];
    }
  }

  /** One more recorded entry, in terms of `Take`. */
  lemma RecordStep(h: seq<Entry>, x: Entry, newer: seq<Entry>)
    requires |h| <= Capacity
    ensures Take(newer + AddHistory(h, x), Capacity) == Take((newer + [x]) + h, Capacity)
  {
    AddHistoryTakes(h, x);
    TakeTake(newer, [x] + h, Capacity);
    assert newer + ([x] + h) == (newer + [x]) + h;
  }

  lemma {:induction false} ReverseIndex<T>(s: seq<T>)
    ensures |Reverse(s)| == |s|
    ensures forall k :: 0 <= k < |s| ==> Reverse(s)[k] == s[|s| - 1 - k]
    decreases |s|
  {
    if |s| > 0 {
      ReverseIndex(s[1..]);
      forall k | 0 <= k < |s| - 1
        ensures Reverse(s)[k] == s[|s| - 1 - k]
      {
        assert Reverse(s)[k] == Reverse(s[1..])[k];
      }
    }
  }

  /** From an empty history, any run of calculations leaves the fifty most
      recent (all of them when there are fewer), the most recent first. */
  lemma RecordFromEmpty(items: seq<Entry>)
    ensures |Record([], items)| == if |items| <= Capacity then |items| else Capacity
    ensures forall k :: 0 <= k < |Record([], items)| ==> Record([], items)[k] == items[|items| - 1 - k]
  {
    RecordKeepsNewest([], items);
    ReverseIndex(items);
    assert Reverse(items) + [] == Reverse(items);
  }

  /** A list that is already at or over the cap keeps its length: each
      `addHistory` drops a single entry, so a longer list is never cut back
      to the cap. */
  lemma {:induction false} RecordOverCap(h: seq<Entry>, items: seq<Entry>)
    requires |h| >= Capacity
    ensures |Record(h, items)| == |h|
    decreases |items|
  {
    if |items| > 0 {
      RecordOverCap(AddHistory(h, items[0]), items[1..]);
    }
  }
}
