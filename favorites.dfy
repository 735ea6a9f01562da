/**
 The favorites store of the quote generator: an ordered list of quotes whose
 identity is their `content` text alone (the author plays no part in it).
 `Add` and `Remove` are the new lists that `addToFavorites` and
 `removeFromFavorites` hand to the favorites setter; `FavoriteDisabled` is the
 disabled predicate of the "Favorite" button.
 */
module Favorites {

  datatype Option<+T> = None | Some(value: T)

  /** A quote as the application holds it: the text and its author. */
  datatype Quote = Quote(content: string, author: string)

  /** `favs.some(fav => fav.content === c)`, written as a recursive scan. */
  function HasContent(favs: seq<Quote>, c: string): (b: bool)
    ensures b <==> exists i :: 0 <= i < |favs| && favs[i].content == c
  {
    if favs == [] then false
    else favs[0].content == c || HasContent(favs[1..], c)
  }

  /** The invariant of the store: no two favorites share their content. */
  predicate UniqueContents(favs: seq<Quote>)
  {
    forall i, j :: 0 <= i < j < |favs| ==> favs[i].content != favs[j].content
  }

  /** `r` is `s` with some entries dropped and the rest in their original order. */
  predicate IsSubsequence(r: seq<Quote>, s: seq<Quote>)
    decreases |s|
  {
    if r == [] then true
    else if s == [] then false
    else (r[0] == s[0] && IsSubsequence(r[1..], s[1..])) || IsSubsequence(r, s[1..])
  }

  /** The number of favorites whose content is `c`. */
  function CountContent(favs: seq<Quote>, c: string): nat
  {
    if favs == [] then 0
    else (if favs[0].content == c then 1 else 0) + CountContent(favs[1..], c)
  }

  /**
   The list `addToFavorites` produces from the current quote (absent while
   nothing has been loaded) and the current favorites: the quote is appended
   exactly when it is present and no favorite has its content; otherwise the
   list is returned as it was.
   */
  function Add(quote: Option<Quote>, favs: seq<Quote>): (r: seq<Quote>)
    ensures favs <= r && |r| <= |favs| + 1
    ensures |r| == |favs| + 1 <==>
              quote.Some? && forall i :: 0 <= i < |favs| ==> favs[i].content != quote.value.content
    ensures |r| == |favs| + 1 ==> r[|favs|] == quote.value
  {
    if quote.Some? && !HasContent(favs, quote.value.content) then favs + [quote.value]
    else favs
  }

  /**
   The list `removeFromFavorites` produces: every favorite whose content
   equals the target's is dropped, and every other one is kept, in order and
   as many times as it occurred.
   */
  function Remove(favs: seq<Quote>, target: Quote): (r: seq<Quote>)
    ensures |r| <= |favs|
    ensures forall i :: 0 <= i < |r| ==> r[i].content != target.content
    ensures IsSubsequence(r, favs)
    ensures forall x: Quote :: x.content != target.content ==> multiset(r)[x] == multiset(favs)[x]
  {
    if favs == [] then []
    else
      var rest := Remove(favs[1..], target);
      assert favs == [favs[0]] + favs[1..];
      if favs[0].content == target.content then
        assert IsSubsequence(rest, favs) by { SubsequenceOfTail(rest, favs); }
        rest
      else
        [favs[0]] + rest
  }

  /** The "Favorite" button is disabled when no quote is loaded or it is already a favorite. */
  function FavoriteDisabled(quote: Option<Quote>, favs: seq<Quote>): (disabled: bool)
    ensures disabled <==>
              quote.None? || exists i :: 0 <= i < |favs| && favs[i].content == quote.value.content
  {
    quote.None? || HasContent(favs, quote.value.content)
  }

  /** A subsequence of the tail of `s` is a subsequence of `s`. */
  lemma SubsequenceOfTail(r: seq<Quote>, s: seq<Quote>)
    requires s != [] && IsSubsequence(r, s[1..])
    ensures IsSubsequence(r, s)
  {
  }

  // ---------------------------------------------------------------------
  // Properties of Add

  /** Adding keeps the store free of duplicate contents. */
  lemma AddKeepsUnique(quote: Option<Quote>, favs: seq<Quote>)
    requires UniqueContents(favs)
    ensures UniqueContents(Add(quote, favs))
  {
  }

  /** Adding the same quote twice gives the same list as adding it once. */
  lemma AddIdempotent(quote: Option<Quote>, favs: seq<Quote>)
    ensures Add(quote, Add(quote, favs)) == Add(quote, favs)
  {
    var once := Add(quote, favs);
    if |once| == |favs| + 1 {
      assert once[|favs|].content == quote.value.content;
    }
  }

  /** The Favorite button is enabled exactly when pressing it would change the list. */
  lemma FavoriteEnabledIffAddChanges(quote: Option<Quote>, favs: seq<Quote>)
    ensures !FavoriteDisabled(quote, favs) <==> Add(quote, favs) != favs
  {
  }

  /**
   In a store without duplicates, adding a quote, once or twice, leaves
   exactly one favorite with its content.
   */
  lemma {:induction false} AddLeavesOneEntry(q: Quote, favs: seq<Quote>)
    requires UniqueContents(favs)
    ensures CountContent(Add(Some(q), favs), q.content) == 1
    ensures CountContent(Add(Some(q), Add(Some(q), favs)), q.content) == 1
  {
    AddIdempotent(Some(q), favs);
    if HasContent(favs, q.content) {
      UniqueCountAtMostOne(favs, q.content);
      CountPositive(favs, q.content);
    } else {
      CountAppend(favs, [q], q.content);
      CountAbsent(favs, q.content);
      assert [q][1..] == [];
    }
  }

  lemma {:induction false} CountAppend(a: seq<Quote>, b: seq<Quote>, c: string)
    ensures CountContent(a + b, c) == CountContent(a, c) + CountContent(b, c)
  {
    if a != [] {
      assert (a + b)[1..] == a[1..] + b;
      CountAppend(a[1..], b, c);
    } else {
      assert a + b == b;
    }
  }

  lemma {:induction false} CountAbsent(favs: seq<Quote>, c: string)
    requires !HasContent(favs, c)
    ensures CountContent(favs, c) == 0
  {
    if favs != [] {
      CountAbsent(favs[1..], c);
    }
  }

  lemma {:induction false} CountPositive(favs: seq<Quote>, c: string)
    requires HasContent(favs, c)
    ensures CountContent(favs, c) >= 1
  {
    if favs[0].content != c {
      CountPositive(favs[1..], c);
    }
  }

  lemma {:induction false} UniqueCountAtMostOne(favs: seq<Quote>, c: string)
    requires UniqueContents(favs)
    ensures CountContent(favs, c) <= 1
  {
    if favs != [] {
      assert UniqueContents(favs[1..]) by {
        forall i, j | 0 <= i < j < |favs[1..]|
          ensures favs[1..][i].content != favs[1..][j].content
        {
          assert favs[1..][i] == favs[i + 1] && favs[1..][j] == favs[j + 1];
        }
      }
      UniqueCountAtMostOne(favs[1..], c);
      if favs[0].content == c {
        CountAbsent(favs[1..], c);
      }
    }
  }

  // ---------------------------------------------------------------------
  // Properties of Remove

  /** After removal the target's content is no longer favorited. */
  lemma RemovedIsNotFavorited(favs: seq<Quote>, target: Quote)
    ensures !HasContent(Remove(favs, target), target.content)
  {
  }

  /** Removal keeps the store free of duplicate contents. */
  lemma {:induction false} RemoveKeepsUnique(favs: seq<Quote>, target: Quote)
    requires UniqueContents(favs)
    ensures UniqueContents(Remove(favs, target))
  {
    var r := Remove(favs, target);
    forall i, j | 0 <= i < j < |r| ensures r[i].content != r[j].content {
      var p, q := SubsequenceIndices(r, favs, i, j);
    }
  }

  /**
   Two positions `i < j` of a subsequence `r` of `s` come from two positions
   `p < q` of `s` that hold the same entries.
   */
  lemma {:induction false} SubsequenceIndices(r: seq<Quote>, s: seq<Quote>, i: nat, j: nat)
    returns (p: nat, q: nat)
    requires IsSubsequence(r, s) && i < j < |r|
    ensures p < q < |s| && s[p] == r[i] && s[q] == r[j]
    decreases |s|
  {
    assert s != [];
    if r[0] == s[0] && IsSubsequence(r[1..], s[1..]) {
      if i == 0 {
        q := SubsequenceIndex(r[1..], s[1..], j - 1);
        p, q := 0, q + 1;
      } else {
        p, q := SubsequenceIndices(r[1..], s[1..], i - 1, j - 1);
        p, q := p + 1, q + 1;
      }
    } else {
      p, q := SubsequenceIndices(r, s[1..], i, j);
      p, q := p + 1, q + 1;
    }
  }

  /** Every position of a subsequence `r` of `s` comes from a position of `s`. */
  lemma {:induction false} SubsequenceIndex(r: seq<Quote>, s: seq<Quote>, i: nat) returns (p: nat)
    requires IsSubsequence(r, s) && i < |r|
    ensures p < |s| && s[p] == r[i]
    decreases |s|
  {
    assert s != [];
    if r[0] == s[0] && IsSubsequence(r[1..], s[1..]) {
      if i == 0 {
        p := 0;
      } else {
        p := SubsequenceIndex(r[1..], s[1..], i - 1);
        p := p + 1;
      }
    } else {
      p := SubsequenceIndex(r, s[1..], i);
      p := p + 1;
    }
  }

  /** Removing a content that no favorite has leaves the list as it was. */
  lemma {:induction false} RemoveAbsentIsNoOp(favs: seq<Quote>, target: Quote)
    requires !HasContent(favs, target.content)
    ensures Remove(favs, target) == favs
  {
    if favs != [] {
      RemoveAbsentIsNoOp(favs[1..], target);
      assert favs == [favs[0]] + favs[1..];
    }
  }

  /** Removing twice gives the same list as removing once. */
  lemma RemoveIdempotent(favs: seq<Quote>, target: Quote)
    ensures Remove(Remove(favs, target), target) == Remove(favs, target)
  {
    RemoveAbsentIsNoOp(Remove(favs, target), target);
  }

  /** Removal distributes over concatenation. */
  lemma {:induction false} RemoveAppend(a: seq<Quote>, b: seq<Quote>, target: Quote)
    ensures Remove(a + b, target) == Remove(a, target) + Remove(b, target)
  {
    if a == [] {
      assert a + b == b;
    } else {
      assert (a + b)[1..] == a[1..] + b;
      RemoveAppend(a[1..], b, target);
    }
  }

  /** Adding a quote whose content is not yet favorited and then removing it restores the list. */
  lemma {:induction false} AddThenRemoveRestores(q: Quote, favs: seq<Quote>)
    requires !HasContent(favs, q.content)
    ensures Remove(Add(Some(q), favs), q) == favs
  {
    RemoveAppend(favs, [q], q);
    RemoveAbsentIsNoOp(favs, q);
    assert Remove([q], q) == [] by { assert [q][1..] == []; }
  }

  /** Adding a quote twice to an empty store and then removing it empties the store. */
  lemma AddAddRemoveEmpties(q: Quote)
    ensures Remove(Add(Some(q), Add(Some(q), [])), q) == []
  {
    AddIdempotent(Some(q), []);
    AddThenRemoveRestores(q, []);
  }
}
