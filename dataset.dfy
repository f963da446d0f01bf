/** The vocabulary dataset and the group filter applied to it when a group is loaded. */
module Dataset {

  /** One record of the vocabulary file. Only the fields the session logic reads are kept:
      the numeric study group (compared with strict equality) and the display word. */
  datatype Entry = Entry(group: int, word: string)

  /** The records of `data` whose group is `g`, in dataset order. */
  function FilterGroup(data: seq<Entry>, g: int): (r: seq<Entry>)
    ensures |r| <= |data|
    ensures forall i :: 0 <= i < |r| ==> r[i].group == g
    ensures forall e :: e in data && e.group == g ==> e in r
    ensures forall e :: e in r ==> e in data
  {
    if data == [] then []
    else if data[0].group == g then [data[0]] + FilterGroup(data[1..], g)
    else FilterGroup(data[1..], g)
  }

  /** Filtering distributes over concatenation: the kept records keep their relative order. */
  lemma {:induction false} FilterGroupAppend(a: seq<Entry>, b: seq<Entry>, g: int)
    ensures FilterGroup(a + b, g) == FilterGroup(a, g) + FilterGroup(b, g)
  {
    if a == [] {
      assert a + b == b;
    } else {
      assert (a + b)[1..] == a[1..] + b;
      FilterGroupAppend(a[1..], b, g);
    }
  }

  /** Each record of group `g` is kept exactly as many times as it occurs in the dataset,
      and no record of another group is kept. */
  lemma {:induction false} FilterGroupCount(data: seq<Entry>, g: int, e: Entry)
    ensures multiset(FilterGroup(data, g))[e] == if e.group == g then multiset(data)[e] else 0
  {
    if data != [] {
      assert data == [data[0]] + data[1..];
      FilterGroupCount(data[1..], g, e);
    }
  }

  /** Filtering an already filtered list by the same group changes nothing. */
  lemma {:induction false} FilterGroupIdempotent(data: seq<Entry>, g: int)
    ensures FilterGroup(FilterGroup(data, g), g) == FilterGroup(data, g)
  {
    if data != [] {
      FilterGroupIdempotent(data[1..], g);
      if data[0].group == g {
        var r := FilterGroup(data, g);
        assert r == [data[0]] + FilterGroup(data[1..], g);
        assert r[1..] == FilterGroup(data[1..], g);
      }
    }
  }

  /** The words of one group contain nothing of any other group. */
  lemma {:induction false} FilterGroupDisjoint(data: seq<Entry>, g: int, h: int)
    requires g != h
    ensures FilterGroup(FilterGroup(data, g), h) == []
  {
    if data != [] {
      FilterGroupDisjoint(data[1..], g, h);
      if data[0].group == g {
        var r := FilterGroup(data, g);
        assert r[1..] == FilterGroup(data[1..], g);
      }
    }
  }

  /** A dataset in which every record belongs to `g` is kept whole. */
  lemma {:induction false} FilterGroupKeepsAll(data: seq<Entry>, g: int)
    requires forall i :: 0 <= i < |data| ==> data[i].group == g
    ensures FilterGroup(data, g) == data
  {
    if data != [] {
      FilterGroupKeepsAll(data[1..], g);
    }
  }
}
