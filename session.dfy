/** The flashcard component: its four state fields, the handlers that update them, and what it renders. */
module Flashcards {
  import opened Dataset
  import opened Navigation

  /** What the component shows: a loading placeholder while it has no words, otherwise the
      current card (front or back) and the "Card k of n" counter. */
  datatype Screen =
    | Loading
    | Card(entry: Entry, flipped: bool, position: int, total: int)

  class Session {
    var words: seq<Entry>  // the loaded words of the selected group
    var group: int         // the selected group
    var index: int         // the cursor into words
    var flipped: bool      // whether the card shows its back

    /** The cursor points at a word whenever there is one. */
    ghost predicate Valid()
      reads this
    {
      0 <= index && (|words| > 0 ==> index < |words|)
    }

    /** The component's initial state: no words yet, group 1, first card, front side. */
    constructor ()
      ensures Valid()
      ensures words == [] && group == 1 && index == 0 && !flipped
    {
      words, group, index, flipped := [], 1, 0, false;
    }

    /** A group button was clicked. The load effect depends on the group only, so it re-runs
        (`reload`) exactly when the group actually changed. */
    method SelectGroup(g: int) returns (reload: bool)
      requires Valid()
      modifies this
      ensures Valid()
      ensures group == g && reload == (g != old(group))
      ensures words == old(words) && index == old(index) && flipped == old(flipped)
    {
      reload := g != group;
      group := g;
    }

    /** The load effect: keep the dataset records of the selected group and go to the first card.
        The flip state is left as it was. */
    method LoadGroup(data: seq<Entry>)
      requires Valid()
      modifies this
      ensures Valid()
      ensures words == FilterGroup(data, group) && index == 0
      ensures group == old(group) && flipped == old(flipped)
    {
      words := FilterGroup(data, group);
      index := 0;
    }

    /** The Next button: show the front of the following card, wrapping from the last to the first. */
    method Next()
      requires Valid() && |words| > 0
      modifies this
      ensures Valid()
      ensures index == NextIndex(old(index), |old(words)|) && !flipped
      ensures words == old(words) && group == old(group)
    {
      flipped := false;
      index := JsRem(index + 1, |words|);
    }

    /** The Previous button: show the front of the preceding card, wrapping from the first to the last. */
    method Prev()
      requires Valid() && |words| > 0
      modifies this
      ensures Valid()
      ensures index == PrevIndex(old(index), |old(words)|) && !flipped
      ensures words == old(words) && group == old(group)
    {
      flipped := false;
      index := JsRem(index - 1 + |words|, |words|);
    }

    /** A click on the card turns it over. */
    method Flip()
      requires Valid()
      modifies this
      ensures Valid()
      ensures flipped == !old(flipped)
      ensures words == old(words) && group == old(group) && index == old(index)
    {
      flipped := !flipped;
    }

    /** What is rendered: nothing but the placeholder without words; otherwise the word under the
        cursor, its side, and a counter between 1 and the number of words. */
    function Render(): (s: Screen)
      reads this
      requires Valid()
      ensures s.Loading? <==> |words| == 0
      ensures s.Card? ==> s.entry == words[index] && s.flipped == flipped
      ensures s.Card? ==> 1 <= s.position <= s.total == |words|
      ensures s.Card? ==> s.position == index + 1
    {
      if |words| == 0 then Loading
      else Card(words[index], flipped, index + 1, |words|)
    }
  }

  /** Next then Previous is back on the same card, front side up, with the same words. */
  method NextThenPrev(s: Session)
    requires s.Valid() && |s.words| > 0
    modifies s
    ensures s.Valid()
    ensures s.index == old(s.index) && !s.flipped
    ensures s.words == old(s.words) && s.group == old(s.group)
  {
    s.Next();
    s.Prev();
  }

  /** Previous then Next is back on the same card, front side up, with the same words. */
  method PrevThenNext(s: Session)
    requires s.Valid() && |s.words| > 0
    modifies s
    ensures s.Valid()
    ensures s.index == old(s.index) && !s.flipped
    ensures s.words == old(s.words) && s.group == old(s.group)
  {
    s.Prev();
    s.Next();
  }

  /** Turning the card over twice restores the whole state. */
  method FlipTwice(s: Session)
    requires s.Valid()
    modifies s
    ensures s.Valid()
    ensures s.flipped == old(s.flipped) && s.index == old(s.index)
    ensures s.words == old(s.words) && s.group == old(s.group)
  {
    s.Flip();
    s.Flip();
  }

  /** Choosing a group: the click, then the load effect when the group changed. Afterwards the
      words are exactly that group's records; the first is shown when the group changed, and a click
      on the group already selected leaves the cursor where it was. */
  method ChooseGroup(s: Session, data: seq<Entry>, g: int)
    requires s.Valid()
    requires s.words == FilterGroup(data, s.group)
    modifies s
    ensures s.Valid() && s.group == g
    ensures s.words == FilterGroup(data, g)
    ensures forall i :: 0 <= i < |s.words| ==> s.words[i].group == g
    ensures g != old(s.group) ==> s.index == 0
    ensures g == old(s.group) ==> s.index == old(s.index)
    ensures s.flipped == old(s.flipped)
  {
    var reload := s.SelectGroup(g);
    if reload {
      s.LoadGroup(data);
    }
  }

  /** A two-word group: Next from the second word goes back to the first (wrap-around, not a
      clamp), and the counter reads "Card 1 of 2" again. */
  method TwoWordScenario()
  {
    var data := [Entry(1, "cat"), Entry(1, "dog"), Entry(2, "fox")];
    var s := new Session();
    s.LoadGroup(data);
    assert s.words == [Entry(1, "cat"), Entry(1, "dog")];
    s.Flip();
    assert s.Render() == Card(Entry(1, "cat"), true, 1, 2);
    s.Next();
    assert s.Render() == Card(Entry(1, "dog"), false, 2, 2);
    s.Next();
    assert s.Render() == Card(Entry(1, "cat"), false, 1, 2);
    var reload := s.SelectGroup(3);
    s.LoadGroup(data);
    assert reload && s.Render() == Loading;
  }
}
