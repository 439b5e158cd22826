/** `EnumerableExtensions.Choose`: a filter-map that applies a chooser to each
    element and keeps the non-null results, in order. */
module Extensions {
  import opened Wrappers

  /** The reference-type overload, as one recursive filter-map. */
  function Choose<T, U>(xs: seq<T>, chooser: T -> Option<U>): (r: seq<U>)
    ensures |r| <= |xs|
  {
    if |xs| == 0 then []
    else
      var rest := Choose(xs[1..], chooser);
      match chooser(xs[0])
      case Some(y) => [y] + rest
      case None => rest
  }

  /** The chosen values are exactly the non-null results of the chooser. */
  lemma {:induction false} ChooseMembership<T, U>(xs: seq<T>, chooser: T -> Option<U>)
    ensures forall y :: y in Choose(xs, chooser) ==> exists i :: 0 <= i < |xs| && chooser(xs[i]) == Some(y)
    ensures forall i :: 0 <= i < |xs| && chooser(xs[i]).Some? ==> chooser(xs[i]).value in Choose(xs, chooser)
    decreases |xs|
  {
    if |xs| > 0 {
      ChooseMembership(xs[1..], chooser);
      assert forall i :: 1 <= i < |xs| ==> xs[1..][i - 1] == xs[i];
    }
  }

  /** `Select`: apply the chooser to every element. */
  function Select<T, U>(xs: seq<T>, f: T -> U): (r: seq<U>)
    ensures |r| == |xs|
    ensures forall i :: 0 <= i < |xs| ==> r[i] == f(xs[i])
  {
    seq(|xs|, i requires 0 <= i < |xs| => f(xs[i]))
  }

  /** `Where(x => x.HasValue)`: keep the present values, in order. */
  function WhereHasValue<U>(os: seq<Option<U>>): (r: seq<Option<U>>)
    ensures forall i :: 0 <= i < |r| ==> r[i].Some?
    ensures |r| <= |os|
  {
    if |os| == 0 then []
    else if os[0].Some? then [os[0]] + WhereHasValue(os[1..])
    else WhereHasValue(os[1..])
  }

  /** `Select(x => x!.Value)`: unwrap values known to be present. */
  function Values<U>(os: seq<Option<U>>): (r: seq<U>)
    requires forall i :: 0 <= i < |os| ==> os[i].Some?
    ensures |r| == |os|
  {
    seq(|os|, i requires 0 <= i < |os| && os[i].Some? => os[i].value)
  }

  /** The value-type overload, as the three-stage pipeline the source
      writes. */
  function ChooseStruct<T, U>(xs: seq<T>, chooser: T -> Option<U>): (r: seq<U>)
    ensures |r| <= |xs|
  {
    Values(WhereHasValue(Select(xs, chooser)))
  }

  /** Both overloads yield the same elements in the same order. */
  lemma {:induction false} ChooseOverloadsAgree<T, U>(xs: seq<T>, chooser: T -> Option<U>)
    ensures ChooseStruct(xs, chooser) == Choose(xs, chooser)
    decreases |xs|
  {
    if |xs| > 0 {
      var os := Select(xs, chooser);
      assert os[1..] == Select(xs[1..], chooser);
      ChooseOverloadsAgree(xs[1..], chooser);
      if os[0].Some? {
        assert WhereHasValue(os) == [os[0]] + WhereHasValue(os[1..]);
        assert Values([os[0]] + WhereHasValue(os[1..])) == [os[0].value] + Values(WhereHasValue(os[1..]));
      }
    }
  }

  /** Choose distributes over concatenation. */
  lemma {:induction false} ChooseAppend<T, U>(xs: seq<T>, ys: seq<T>, chooser: T -> Option<U>)
    ensures Choose(xs + ys, chooser) == Choose(xs, chooser) + Choose(ys, chooser)
    decreases |xs|
  {
    if |xs| == 0 {
      assert xs + ys == ys;
    } else {
      assert (xs + ys)[1..] == xs[1..] + ys;
      ChooseAppend(xs[1..], ys, chooser);
    }
  }

  /** A chooser that never returns null turns Choose into a plain map. */
  lemma {:induction false} ChooseTotal<T, U>(xs: seq<T>, chooser: T -> Option<U>)
    requires forall i :: 0 <= i < |xs| ==> chooser(xs[i]).Some?
    ensures |Choose(xs, chooser)| == |xs|
    ensures forall i :: 0 <= i < |xs| ==> Choose(xs, chooser)[i] == chooser(xs[i]).value
    decreases |xs|
  {
    if |xs| > 0 {
      assert forall i :: 1 <= i < |xs| ==> xs[1..][i - 1] == xs[i];
      ChooseTotal(xs[1..], chooser);
    }
  }

  /** A chooser that always returns null leaves nothing. */
  lemma {:induction false} ChooseNothing<T, U>(xs: seq<T>, chooser: T -> Option<U>)
    requires forall i :: 0 <= i < |xs| ==> chooser(xs[i]).None?
    ensures Choose(xs, chooser) == []
    decreases |xs|
  {
    if |xs| > 0 {
      assert forall i :: 1 <= i < |xs| ==> xs[1..][i - 1] == xs[i];
      ChooseNothing(xs[1..], chooser);
    }
  }
}
