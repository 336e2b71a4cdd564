/** `collectProjects` and the card-click lookup of the project modal: cards
    are grouped by their `data-category` (missing or empty means "other"),
    each group in page order, and a clicked card is found by identity in its
    own group. A card is identified by its position on the page. */
module Projects {

  datatype Card = Card(category: string)

  /** One entry of a category list: the card's page position and the
      category it was filed under. */
  datatype Project = Project(index: nat, category: string)

  const Other: string := "other"

  /** `card.dataset.category || 'other'`: a missing attribute reads as the
      empty string here, and both fall back to "other". */
  function CategoryOf(c: Card): (r: string)
    ensures r != []
    ensures c.category != [] ==> r == c.category
  {
    if c.category == [] then Other else c.category
  }

  /** Reference reading: the entries of `cards[..k]` filed under `cat`, in
      page order. */
  function Filed(cards: seq<Card>, k: nat, cat: string): seq<Project>
    requires k <= |cards|
  {
    if k == 0 then []
    else Filed(cards, k - 1, cat)
         + (if CategoryOf(cards[k - 1]) == cat then [Project(k - 1, cat)] else [])
  }

  /** `collectProjects` over the first `k` cards, as the `forEach` builds it. */
  function Collect(cards: seq<Card>, k: nat): (m: map<string, seq<Project>>)
    requires k <= |cards|
    ensures forall cat :: cat in m <==> exists i :: 0 <= i < k && CategoryOf(cards[i]) == cat
    ensures forall cat :: cat in m ==> m[cat] == Filed(cards, k, cat)
  {
    if k == 0 then map[]
    else
      var m := Collect(cards, k - 1);
      var cat := CategoryOf(cards[k - 1]);
      var filed := if cat in m then m[cat] else [];
      CollectStep(cards, k, m);
      m[cat := filed + [Project(k - 1, cat)]]
  }

  /** Filing card `k - 1` into the map built from the cards before it gives
      the map of the first `k` cards. */
  lemma CollectStep(cards: seq<Card>, k: nat, m: map<string, seq<Project>>)
    requires 0 < k <= |cards|
    requires forall cat :: cat in m <==> exists i :: 0 <= i < k - 1 && CategoryOf(cards[i]) == cat
    requires forall cat :: cat in m ==> m[cat] == Filed(cards, k - 1, cat)
    ensures var c := CategoryOf(cards[k - 1]);
            var m' := m[c := (if c in m then m[c] else []) + [Project(k - 1, c)]];
            && (forall cat :: cat in m' <==> exists i :: 0 <= i < k && CategoryOf(cards[i]) == cat)
            && (forall cat :: cat in m' ==> m'[cat] == Filed(cards, k, cat))
  {
    var c := CategoryOf(cards[k - 1]);
    var m' := m[c := (if c in m then m[c] else []) + [Project(k - 1, c)]];
    forall cat ensures cat in m' <==> exists i :: 0 <= i < k && CategoryOf(cards[i]) == cat {
      if cat != c && exists i :: 0 <= i < k && CategoryOf(cards[i]) == cat {
        var i :| 0 <= i < k && CategoryOf(cards[i]) == cat;
        assert i < k - 1;
      }
    }
    forall cat | cat in m' ensures m'[cat] == Filed(cards, k, cat) {
      if cat == c && c !in m {
        NotFiledWhenAbsent(cards, k - 1, c);
      }
    }
  }

  lemma {:induction false} NotFiledWhenAbsent(cards: seq<Card>, k: nat, cat: string)
    requires k <= |cards|
    requires forall i :: 0 <= i < k ==> CategoryOf(cards[i]) != cat
    ensures Filed(cards, k, cat) == []
    decreases k
  {
    if k > 0 {
      NotFiledWhenAbsent(cards, k - 1, cat);
    }
  }

  function CollectProjects(cards: seq<Card>): (m: map<string, seq<Project>>)
    ensures forall cat :: cat in m <==> exists i :: 0 <= i < |cards| && CategoryOf(cards[i]) == cat
    ensures forall cat :: cat in m ==> m[cat] == Filed(cards, |cards|, cat)
  {
    Collect(cards, |cards|)
  }

  /** `findIndex(p => p.element === card)`: the first position holding the
      card, or -1. */
  function FindIndex(ps: seq<Project>, card: nat): (r: int)
    ensures -1 <= r < |ps|
    ensures r >= 0 ==> ps[r].index == card && forall j :: 0 <= j < r ==> ps[j].index != card
    ensures r == -1 <==> forall j :: 0 <= j < |ps| ==> ps[j].index != card
  {
    if |ps| == 0 then -1
    else if ps[0].index == card then 0
    else
      var r := FindIndex(ps[1..], card);
      if r == -1 then -1 else r + 1
  }

  /** Every entry filed from `cards[..k]` names a card in that range, in
      increasing page order, under the category it was looked up by. */
  lemma {:induction false} FiledInOrder(cards: seq<Card>, k: nat, cat: string)
    requires k <= |cards|
    ensures forall j :: 0 <= j < |Filed(cards, k, cat)| ==>
              Filed(cards, k, cat)[j].index < k
              && CategoryOf(cards[Filed(cards, k, cat)[j].index]) == cat
              && Filed(cards, k, cat)[j].category == cat
    ensures forall i, j :: 0 <= i < j < |Filed(cards, k, cat)| ==>
              Filed(cards, k, cat)[i].index < Filed(cards, k, cat)[j].index
    decreases k
  {
    if k > 0 {
      FiledInOrder(cards, k - 1, cat);
    }
  }

  /** A card is filed under its own category. */
  lemma {:induction false} FiledContains(cards: seq<Card>, k: nat, i: nat)
    requires i < k <= |cards|
    ensures exists j :: 0 <= j < |Filed(cards, k, CategoryOf(cards[i]))|
                        && Filed(cards, k, CategoryOf(cards[i]))[j].index == i
    decreases k
  {
    var cat := CategoryOf(cards[i]);
    if i == k - 1 {
      var f := Filed(cards, k, cat);
      assert f[|f| - 1].index == i;
    } else {
      FiledContains(cards, k - 1, i);
      var j :| 0 <= j < |Filed(cards, k - 1, cat)| && Filed(cards, k - 1, cat)[j].index == i;
      assert Filed(cards, k, cat)[j] == Filed(cards, k - 1, cat)[j];
    }
  }

  /** Clicking card `i` finds it in its category's list, so the modal opens
      on a valid position of a non-empty list showing that very card. */
  lemma ClickedCardIsFound(cards: seq<Card>, i: nat)
    requires i < |cards|
    ensures var m := CollectProjects(cards);
            var cat := CategoryOf(cards[i]);
            cat in m && 0 <= FindIndex(m[cat], i) < |m[cat]| && m[cat][FindIndex(m[cat], i)].index == i
  {
    var m := CollectProjects(cards);
    var cat := CategoryOf(cards[i]);
    assert cat in m;
    FiledContains(cards, |cards|, i);
  }
}
