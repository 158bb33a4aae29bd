/** First finding of a test over the items, or over the ordered pairs, of a sequence. */
module Searching {
  import opened Wrappers

  function FirstOf<A, C>(test: A -> Option<C>, items: seq<A>): Option<C> {
    if |items| == 0 then None
    else if test(items[0]).Some? then test(items[0])
    else FirstOf(test, items[1..])
  }

  lemma {:induction false} FirstOfFinds<A, C>(test: A -> Option<C>, items: seq<A>)
    ensures match FirstOf(test, items)
      case Some(x) => exists i :: 0 <= i < |items| && test(items[i]) == Some(x)
      case None => forall i :: 0 <= i < |items| ==> test(items[i]) == None
  {
    if |items| > 0 && test(items[0]).None? {
      var rest := items[1..];
      FirstOfFinds(test, rest);
      if FirstOf(test, rest).Some? {
        var i :| 0 <= i < |rest| && test(rest[i]) == FirstOf(test, rest);
        assert test(items[i + 1]) == FirstOf(test, rest);
      } else {
        forall i | 0 <= i < |items|
          ensures test(items[i]) == None
        {
          assert i > 0 ==> items[i] == rest[i - 1];
        }
      }
    }
  }

  function FirstPair<A, C>(test: (A, A) -> Option<C>, items: seq<A>): Option<C> {
    if |items| == 0 then None
    else
      var x := FirstOf((later: A) => test(items[0], later), items[1..]);
      if x.Some? then x else FirstPair(test, items[1..])
  }

  lemma {:induction false} FirstPairFinds<A, C>(test: (A, A) -> Option<C>, items: seq<A>)
    ensures match FirstPair(test, items)
      case Some(x) => exists i, j :: 0 <= i < j < |items| && test(items[i], items[j]) == Some(x)
      case None => forall i, j :: 0 <= i < j < |items| ==> test(items[i], items[j]) == None
  {
    if |items| > 0 {
      var rest, first := items[1..], (later: A) => test(items[0], later);
      FirstOfFinds(first, rest);
      if FirstOf(first, rest).Some? {
        var j :| 0 <= j < |rest| && first(rest[j]) == FirstOf(first, rest);
        assert test(items[0], items[j + 1]) == FirstPair(test, items);
      } else {
        FirstPairFinds(test, rest);
        if FirstPair(test, rest).Some? {
          var i, j :| 0 <= i < j < |rest| && test(rest[i], rest[j]) == FirstPair(test, rest);
          assert test(items[i + 1], items[j + 1]) == FirstPair(test, items);
        } else {
          forall i, j | 0 <= i < j < |items|
            ensures test(items[i], items[j]) == None
          {
            assert items[j] == rest[j - 1];
            if i == 0 {
              assert first(rest[j - 1]) == None;
            } else {
              assert items[i] == rest[i - 1];
            }
          }
        }
      }
    }
  }
}
