/** The study mode of app.py: a deck order, a position in it, a per-card
    status and two counters kept in the session. The counters must always
    equal the number of cards with each status, so marking the same card
    again never inflates them. */
module Study {
  import opened Wrappers

  /** `"new" | "review" | "correct"` */
  datatype Status = New | Review | Correct

  /** `list(range(n))` */
  function Range(n: nat): (r: seq<nat>)
    ensures |r| == n && forall i :: 0 <= i < n ==> r[i] == i
  {
    seq(n, i requires 0 <= i => i as nat)
  }

  /** `order` holds each of 0..n-1 exactly once. */
  predicate IsPermutation(order: seq<nat>, n: nat) {
    multiset(order) == multiset(Range(n))
  }

  /** `status.get(k, "new")` */
  function StatusOf(status: map<nat, Status>, k: nat): Status {
    if k in status then status[k] else New
  }

  /** The cards whose status is `s`. */
  function WithStatus(status: map<nat, Status>, s: Status): set<nat> {
    set k | k in status && status[k] == s
  }

  /** How many cards have status `s`. */
  function Count(status: map<nat, Status>, s: Status): nat {
    |WithStatus(status, s)|
  }

  /** Setting one card's status moves it from one count to another and
      leaves every other count alone. */
  lemma CountUpdate(status: map<nat, Status>, k: nat, v: Status, s: Status)
    ensures Count(status[k := v], s)
            == Count(status, s) - (if StatusOf(status, k) == s && k in status then 1 else 0) + (if v == s then 1 else 0)
  {
    var a := WithStatus(status, s);
    var b := WithStatus(status[k := v], s);
    var rest := a - {k};
    var added: set<nat> := if v == s then {k} else {};
    forall x ensures x in b <==> x in rest + added {
      if x == k {
        assert x in b <==> v == s;
      } else {
        assert x in b <==> x in a;
      }
    }
    assert b == rest + added;
    assert k !in rest;
    if k in a {
      assert a == rest + {k};
    } else {
      assert rest == a;
    }
  }

  /** Every card of an order of `n` cards is one of them. */
  lemma InDeck(order: seq<nat>, i: nat)
    requires IsPermutation(order, |order|) && i < |order|
    ensures order[i] < |order|
  {
    assert order[i] in multiset(Range(|order|));
  }

  /** `order.append(order.pop(i))`: the card at `i` moves to the end. */
  function Rotate(order: seq<nat>, i: nat): (r: seq<nat>)
    requires i < |order|
    ensures |r| == |order| && multiset(r) == multiset(order)
    ensures r[|r| - 1] == order[i]
    ensures forall j :: 0 <= j < i ==> r[j] == order[j]
    ensures forall j :: i <= j < |r| - 1 ==> r[j] == order[j + 1]
  {
    assert order == order[..i] + [order[i]] + order[i + 1..];
    order[..i] + order[i + 1..] + [order[i]]
  }

  /** After a rotation the next card of the deck is at the same position. */
  lemma RotateBringsNext(order: seq<nat>, i: nat)
    requires i + 1 < |order|
    ensures Rotate(order, i)[i] == order[i + 1]
  {
  }

  /** Rotating the last card of the deck leaves the order as it was, so
      that card is shown again straight away. */
  lemma RotateLast(order: seq<nat>)
    requires order != []
    ensures Rotate(order, |order| - 1) == order
  {
  }

  /** No card can hold two statuses, so when every card with a status is
      one of the `n` cards of the deck the two counts together are at most
      `n`. */
  lemma CountsBounded(status: map<nat, Status>, n: nat)
    ensures (forall k :: k in status ==> k < n) ==> Count(status, Correct) + Count(status, Review) <= n
  {
    var c, r := WithStatus(status, Correct), WithStatus(status, Review);
    assert c * r == {};
    assert |c + r| == |c| + |r|;
    if forall k :: k in status ==> k < n {
      BelowSize(c + r, n);
    }
  }

  /** A set of numbers all below `n` has at most `n` members. */
  lemma {:induction false} BelowSize(a: set<nat>, n: nat)
    requires forall k :: k in a ==> k < n
    ensures |a| <= n
    decreases n
  {
    if n > 0 {
      var b := a - {n - 1};
      BelowSize(b, n - 1);
      if n - 1 in a {
        assert a == b + {n - 1};
      } else {
        assert a == b;
      }
    }
  }

  /** The session's study state. */
  class Session {
    var order: seq<nat>
    var idx: nat
    var showAnswer: bool
    var correct: int
    var review: int
    var lastCard: Option<nat>
    var status: map<nat, Status>

    /** The position is within the deck, the deck is an order of its
        cards, only cards of the deck have a status, and each counter is
        the number of cards with its status; so the counters together never
        exceed the size of the deck. */
    predicate Valid()
      reads this
      ensures Valid() ==> 0 <= correct && 0 <= review && correct + review <= |order|
    {
      CountsBounded(status, |order|);
      && idx <= |order|
      && IsPermutation(order, |order|)
      && (forall k :: k in status ==> k < |order|)
      && correct == Count(status, Correct)
      && review == Count(status, Review)
    }

    /** The deck has been gone through. */
    predicate Complete()
      reads this
    {
      idx >= |order|
    }

    /** The session defaults of lines 76-87. */
    constructor()
      ensures Valid()
      ensures order == [] && idx == 0 && !showAnswer && correct == 0 && review == 0
      ensures lastCard == None && status == map[]
    {
      order, idx, showAnswer := [], 0, false;
      correct, review := 0, 0;
      lastCard, status := None, map[];
      new;
      assert WithStatus(status, Correct) == {} && WithStatus(status, Review) == {};
    }

    /** `reset_study(shuffle)` for a table of `n` cards; `shuffled` is the
        order `random.shuffle` picked. */
    method Reset(n: nat, shuffle: bool, shuffled: seq<nat>)
      requires shuffle ==> IsPermutation(shuffled, n)
      modifies this
      ensures Valid()
      ensures order == if shuffle then shuffled else Range(n)
      ensures idx == 0 && !showAnswer && correct == 0 && review == 0 && lastCard == None
      ensures status == map k | k in Range(n) :: New
    {
      order := if shuffle then shuffled else Range(n);
      idx, showAnswer := 0, false;
      correct, review := 0, 0;
      lastCard := None;
      status := map k | k in Range(n) :: New;
      assert |multiset(order)| == n;
      assert WithStatus(status, Correct) == {} && WithStatus(status, Review) == {};
    }

    /** Lines 198-219, run before the buttons: an empty order is reset
        with a shuffle; a card that differs from the last one shown starts
        with its answer hidden, and it gets status "new" if it has none. */
    method Display(n: nat, shuffled: seq<nat>)
      requires Valid()
      requires order == [] ==> IsPermutation(shuffled, n)
      modifies this
      ensures Valid()
      ensures old(order) != [] ==> order == old(order) && idx == old(idx) && correct == old(correct) && review == old(review)
      ensures old(order) == [] ==> order == shuffled && idx == 0 && correct == 0 && review == 0
      ensures old(order) == [] ==> status == map k | k in Range(n) :: New
      ensures old(order) == [] ==> !showAnswer
      ensures old(order) != [] && Complete() ==>
                status == old(status) && showAnswer == old(showAnswer) && lastCard == old(lastCard)
      ensures old(order) != [] && !Complete() ==> status == old(status)[order[idx] := StatusOf(old(status), order[idx])]
      ensures !Complete() ==>
                && lastCard == Some(order[idx])
                && order[idx] in status
                && (old(lastCard) != Some(order[idx]) ==> !showAnswer)
                && (old(order) != [] && old(lastCard) == Some(order[idx]) ==> showAnswer == old(showAnswer))
    {
      if order == [] {
        Reset(n, true, shuffled);
        if order != [] {
          assert order[0] in multiset(Range(n));
        }
      }
      Flip();
    }

    /** Lines 208-216: the current card, if any, becomes the last card
        shown, with its answer hidden if it is a different card, and with
        status "new" if it has none. */
    method Flip()
      requires Valid()
      modifies this`showAnswer, this`lastCard, this`status
      ensures Valid()
      ensures Complete() ==> status == old(status) && showAnswer == old(showAnswer) && lastCard == old(lastCard)
      ensures !Complete() ==>
                && lastCard == Some(order[idx])
                && showAnswer == (old(showAnswer) && old(lastCard) == Some(order[idx]))
                && status == old(status)[order[idx] := StatusOf(old(status), order[idx])]
    {
      if idx < |order| {
        var card := order[idx];
        InDeck(order, idx);
        if lastCard != Some(card) {
          showAnswer := false;
          lastCard := Some(card);
        }
        if card !in status {
          CountUpdate(status, card, New, Correct);
          CountUpdate(status, card, New, Review);
          status := status[card := New];
        } else {
          assert status == status[card := StatusOf(status, card)];
        }
      }
    }

    /** "◀ prev": one card back, never before the first. */
    method Prev()
      requires Valid() && !Complete()
      modifies this`idx
      ensures Valid()
      ensures idx == if old(idx) > 0 then old(idx) - 1 else 0
    {
      idx := if idx > 0 then idx - 1 else 0;
    }

    /** "show answer" */
    method ShowAnswer()
      requires Valid() && !Complete()
      modifies this`showAnswer
      ensures Valid() && showAnswer
    {
      showAnswer := true;
    }

    /** "✓ correct": with the answer shown, the card becomes "correct",
        counted once however often it is pressed, and the deck advances by
        one. The clamp at zero never acts: a card in review is counted. */
    method MarkCorrect()
      requires Valid() && !Complete()
      modifies this`status, this`correct, this`review, this`idx
      ensures Valid()
      ensures !old(showAnswer) ==> status == old(status) && correct == old(correct) && review == old(review) && idx == old(idx)
      ensures old(showAnswer) ==>
                var card := order[old(idx)];
                var was := StatusOf(old(status), card);
                && status == (if was == Correct then old(status) else old(status)[card := Correct])
                && correct == old(correct) + (if was == Correct then 0 else 1)
                && review == old(review) - (if was == Review then 1 else 0)
                && idx == old(idx) + 1
    {
      if showAnswer {
        var card := order[idx];
        var was := StatusOf(status, card);
        InDeck(order, idx);
        if was != Correct {
          CountUpdate(status, card, Correct, Correct);
          CountUpdate(status, card, Correct, Review);
          correct := correct + 1;
          if was == Review {
            review := if review - 1 > 0 then review - 1 else 0;
          }
          status := status[card := Correct];
        }
        idx := if |order| < idx + 1 then |order| else idx + 1;
      }
    }

    /** "↺ needs review": with the answer shown, the card becomes
        "review", counted only when it enters review, and moves to the end
        of the deck; the position stays, so the next card comes up. */
    method MarkReview()
      requires Valid() && !Complete()
      modifies this`status, this`correct, this`review, this`order
      ensures Valid() && idx == old(idx)
      ensures !old(showAnswer) ==> status == old(status) && correct == old(correct) && review == old(review) && order == old(order)
      ensures old(showAnswer) ==>
                var card := old(order)[idx];
                var was := StatusOf(old(status), card);
                && status == old(status)[card := Review]
                && review == old(review) + (if was == Review then 0 else 1)
                && correct == old(correct) - (if was == Correct then 1 else 0)
                && order == Rotate(old(order), idx)
    {
      if showAnswer {
        var card := order[idx];
        var was := StatusOf(status, card);
        InDeck(order, idx);
        CountUpdate(status, card, Review, Correct);
        CountUpdate(status, card, Review, Review);
        if was != Review {
          review := review + 1;
          if was == Correct {
            correct := if correct - 1 > 0 then correct - 1 else 0;
          }
        }
        status := status[card := Review];
        order := Rotate(order, idx);
        assert multiset(order) == multiset(old(order));
      }
    }
  }
}
