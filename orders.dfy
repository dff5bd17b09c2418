/** Orders: reading `(quantity, dish)` fragments into per-dish totals
    (`improved_extract_order_and_quantity`) and splitting an order by
    availability (`verify_order_with_menu`). */
module Orders {
  import opened Wrappers
  import opened Text
  import opened Fuzzy
  import opened Dishes
  import opened Quantity

  /** One `(quantity, dish)` pair found by the order pattern; an absent
      quantity is the empty string, as `re.findall` gives it. */
  datatype Fragment = Fragment(quantity: string, phrase: string)

  /** An insertion-ordered Python dict from dish name to quantity: the keys
      in insertion order, and the value of each key. */
  datatype Order = Order(keys: seq<string>, qty: map<string, nat>) {
    ghost predicate Valid()
    {
      Distinct(keys) && forall d :: d in qty <==> d in keys
    }
  }

  /** No element occurs twice. */
  ghost predicate Distinct(s: seq<string>)
  {
    forall i, j :: 0 <= i < j < |s| ==> s[i] != s[j]
  }

  const EmptyOrder := Order([], map[])

  /** A best match counts only when its similarity is strictly above this. */
  const AcceptThreshold := 65

  /** `order_dict[dish] += q` for a dish already ordered, `order_dict[dish] = q`
      for a new one. */
  function AddQuantity(o: Order, dish: string, q: nat): (r: Order)
    requires o.Valid()
    ensures r.Valid()
    ensures dish in r.qty && r.qty[dish] == (if dish in o.qty then o.qty[dish] else 0) + q
    ensures forall d :: d != dish ==> (d in r.qty <==> d in o.qty)
    ensures forall d :: d != dish && d in o.qty ==> r.qty[d] == o.qty[d]
    ensures r.keys == if dish in o.qty then o.keys else o.keys + [dish]
  {
    if dish in o.qty then Order(o.keys, o.qty[dish := o.qty[dish] + q])
    else Order(o.keys + [dish], o.qty[dish := q])
  }

  /** The phrase handed to the matcher: stripped, then normalised. */
  function Clean(phrase: string): string
  {
    NormalizeDishName(Strip(phrase))
  }

  /** One turn of the loop over the fragments. */
  function Step(o: Order, f: Fragment, menuItems: seq<string>, extractOne: ExtractOne): (r: Outcome<Order>)
    requires o.Valid()
    ensures r.Returns? ==> r.value.Valid()
  {
    match extractOne(Clean(f.phrase), menuItems)
    case None => RaisesTypeError
    case Some(m) =>
      if m.score > AcceptThreshold then Returns(AddQuantity(o, m.choice, ResolveQuantity(f.quantity)))
      else Returns(o)
  }

  /** The order built from the fragments, one after the other. */
  function Accumulate(fragments: seq<Fragment>, menuItems: seq<string>, extractOne: ExtractOne): (r: Outcome<Order>)
    ensures r.Returns? ==> r.value.Valid()
    decreases |fragments|
  {
    if fragments == [] then Returns(EmptyOrder)
    else
      match Accumulate(fragments[..|fragments| - 1], menuItems, extractOne)
      case RaisesTypeError => RaisesTypeError
      case Returns(o) => Step(o, fragments[|fragments| - 1], menuItems, extractOne)
  }

  /** Appending a fragment is one more turn of the loop. */
  lemma AccumulateSnoc(fragments: seq<Fragment>, f: Fragment, menuItems: seq<string>, extractOne: ExtractOne)
    ensures Accumulate(fragments + [f], menuItems, extractOne) ==
      match Accumulate(fragments, menuItems, extractOne)
      case RaisesTypeError => RaisesTypeError
      case Returns(o) => Step(o, f, menuItems, extractOne)
  {
    assert (fragments + [f])[..|fragments|] == fragments;
  }

  /** The prefix one longer is one more turn of the loop. */
  lemma AccumulateNext(fragments: seq<Fragment>, i: nat, menuItems: seq<string>, extractOne: ExtractOne)
    requires i < |fragments|
    ensures Accumulate(fragments[..i + 1], menuItems, extractOne) ==
      match Accumulate(fragments[..i], menuItems, extractOne)
      case RaisesTypeError => RaisesTypeError
      case Returns(o) => Step(o, fragments[i], menuItems, extractOne)
  {
    assert fragments[..i + 1][..i] == fragments[..i];
  }

  /** An accepted fragment adds its quantity to its dish. */
  lemma StepAccepts(o: Order, f: Fragment, menuItems: seq<string>, extractOne: ExtractOne, m: Match)
    requires o.Valid()
    requires extractOne(Clean(f.phrase), menuItems) == Some(m) && m.score > AcceptThreshold
    ensures Step(o, f, menuItems, extractOne) == Returns(AddQuantity(o, m.choice, ResolveQuantity(f.quantity)))
  {
  }

  /** Once a fragment has raised, the whole call has raised. */
  lemma {:induction false} RaisedStaysRaised(fragments: seq<Fragment>, i: nat, menuItems: seq<string>, extractOne: ExtractOne)
    requires i <= |fragments|
    requires Accumulate(fragments[..i], menuItems, extractOne) == RaisesTypeError
    ensures Accumulate(fragments, menuItems, extractOne) == RaisesTypeError
    decreases |fragments|
  {
    if i < |fragments| {
      var init := fragments[..|fragments| - 1];
      assert init[..i] == fragments[..i];
      RaisedStaysRaised(init, i, menuItems, extractOne);
    } else {
      assert fragments[..i] == fragments;
    }
  }

  /** `improved_extract_order_and_quantity` once the pattern has split the
      prompt into fragments. */
  method ExtractOrder(prompt: string, fragments: seq<Fragment>, menuItems: seq<string>, extractOne: ExtractOne)
    returns (r: Outcome<Order>)
    ensures prompt == "" ==> r == Returns(EmptyOrder)
    ensures prompt != "" ==> r == Accumulate(fragments, menuItems, extractOne)
  {
    if prompt == "" {
      return Returns(EmptyOrder);
    }
    var order := EmptyOrder;
    var i := 0;
    while i < |fragments|
      invariant 0 <= i <= |fragments|
      invariant Accumulate(fragments[..i], menuItems, extractOne) == Returns(order)
    {
      var quantity := fragments[i].quantity;
      var dish := Strip(fragments[i].phrase);
      dish := NormalizeDishName(dish);
      var best := extractOne(dish, menuItems);
      AccumulateNext(fragments, i, menuItems, extractOne);
      if best.None? {
        RaisedStaysRaised(fragments, i + 1, menuItems, extractOne);
        return RaisesTypeError;
      }
      var m := best.value;
      if m.score > AcceptThreshold {
        var q := ResolveQuantity(quantity);
        order := AddQuantity(order, m.choice, q);
      }
      i := i + 1;
    }
    assert fragments[..|fragments|] == fragments;
    return Returns(order);
  }

  // ---- reference definitions of what the accumulation computes ----

  /** The dishes of the accepted fragments, one per fragment, in order. */
  function AcceptedChoices(fragments: seq<Fragment>, menuItems: seq<string>, extractOne: ExtractOne): seq<string>
    decreases |fragments|
  {
    if fragments == [] then []
    else
      var last := match extractOne(Clean(fragments[|fragments| - 1].phrase), menuItems)
        case Some(m) => if m.score > AcceptThreshold then [m.choice] else []
        case None => [];
      AcceptedChoices(fragments[..|fragments| - 1], menuItems, extractOne) + last
  }

  /** The sum of the quantities of the accepted fragments matched to `dish`. */
  function Total(fragments: seq<Fragment>, menuItems: seq<string>, extractOne: ExtractOne, dish: string): nat
    decreases |fragments|
  {
    if fragments == [] then 0
    else
      var f := fragments[|fragments| - 1];
      var here := match extractOne(Clean(f.phrase), menuItems)
        case Some(m) => if m.score > AcceptThreshold && m.choice == dish then ResolveQuantity(f.quantity) else 0
        case None => 0;
      Total(fragments[..|fragments| - 1], menuItems, extractOne, dish) + here
  }

  /** `s` without its repetitions, each element where it first occurs. */
  function FirstOccurrences(s: seq<string>): (r: seq<string>)
    ensures forall d :: d in r <==> d in s
  {
    if s == [] then []
    else
      var init := FirstOccurrences(s[..|s| - 1]);
      assert forall d :: d in s <==> d in s[..|s| - 1] || d == s[|s| - 1];
      if s[|s| - 1] in init then init else init + [s[|s| - 1]]
  }

  /** The order's keys are the accepted dishes, each where it is first
      mentioned; a dish is in the order exactly when some fragment was
      accepted for it. */
  lemma {:induction false} AccumulateKeys(fragments: seq<Fragment>, menuItems: seq<string>, extractOne: ExtractOne, o: Order)
    requires Accumulate(fragments, menuItems, extractOne) == Returns(o)
    ensures o.keys == FirstOccurrences(AcceptedChoices(fragments, menuItems, extractOne))
    ensures forall d :: d in o.qty <==> d in AcceptedChoices(fragments, menuItems, extractOne)
    decreases |fragments|
  {
    if fragments != [] {
      var init := fragments[..|fragments| - 1];
      var prev :| Accumulate(init, menuItems, extractOne) == Returns(prev);
      AccumulateKeys(init, menuItems, extractOne, prev);
      var before := AcceptedChoices(init, menuItems, extractOne);
      var best := extractOne(Clean(fragments[|fragments| - 1].phrase), menuItems);
      if best.Some? && best.value.score > AcceptThreshold {
        var c := best.value.choice;
        assert AcceptedChoices(fragments, menuItems, extractOne) == before + [c];
        assert (before + [c])[..|before|] == before;
        assert c in prev.qty <==> c in FirstOccurrences(before);
      } else {
        assert AcceptedChoices(fragments, menuItems, extractOne) == before + [];
        assert before + [] == before;
      }
    }
  }

  /** Each dish's quantity is the sum over all the accepted fragments
      matched to it: a repeated mention adds to the total instead of
      replacing it. */
  lemma {:induction false} AccumulateTotals(fragments: seq<Fragment>, menuItems: seq<string>, extractOne: ExtractOne, o: Order)
    requires Accumulate(fragments, menuItems, extractOne) == Returns(o)
    ensures forall d :: d in o.qty ==> o.qty[d] == Total(fragments, menuItems, extractOne, d)
    decreases |fragments|
  {
    if fragments != [] {
      var init := fragments[..|fragments| - 1];
      var f := fragments[|fragments| - 1];
      var prev :| Accumulate(init, menuItems, extractOne) == Returns(prev);
      AccumulateTotals(init, menuItems, extractOne, prev);
      var best := extractOne(Clean(f.phrase), menuItems);
      if best.Some? && best.value.score > AcceptThreshold {
        var c := best.value.choice;
        assert o == AddQuantity(prev, c, ResolveQuantity(f.quantity));
        forall d | d in o.qty
          ensures o.qty[d] == Total(fragments, menuItems, extractOne, d)
        {
          if d == c && c !in prev.qty {
            AccumulateKeys(init, menuItems, extractOne, prev);
            if Total(init, menuItems, extractOne, c) > 0 {
              TotalNeedsChoice(init, menuItems, extractOne, c);
            }
          }
        }
      } else {
        assert o == prev;
      }
    }
  }

  /** A dish with a non-zero total was accepted at least once. */
  lemma {:induction false} TotalNeedsChoice(fragments: seq<Fragment>, menuItems: seq<string>, extractOne: ExtractOne, dish: string)
    requires Total(fragments, menuItems, extractOne, dish) > 0
    ensures dish in AcceptedChoices(fragments, menuItems, extractOne)
    decreases |fragments|
  {
    var init := fragments[..|fragments| - 1];
    if Total(init, menuItems, extractOne, dish) > 0 {
      TotalNeedsChoice(init, menuItems, extractOne, dish);
    }
  }

  /** A fragment whose best similarity is 65 or less changes nothing,
      wherever it stands among the fragments. */
  lemma {:induction false} RejectedFragmentIgnored(pre: seq<Fragment>, f: Fragment, post: seq<Fragment>,
                                                   menuItems: seq<string>, extractOne: ExtractOne)
    requires extractOne(Clean(f.phrase), menuItems).Some?
    requires extractOne(Clean(f.phrase), menuItems).value.score <= AcceptThreshold
    ensures Accumulate(pre + [f] + post, menuItems, extractOne) == Accumulate(pre + post, menuItems, extractOne)
    decreases |post|
  {
    if post == [] {
      assert pre + [f] + post == pre + [f];
      assert pre + post == pre;
      RejectedAtEnd(pre, f, menuItems, extractOne);
    } else {
      var rest := post[..|post| - 1];
      var last := post[|post| - 1];
      SplitLast(pre + [f], post);
      SplitLast(pre, post);
      RejectedFragmentIgnored(pre, f, rest, menuItems, extractOne);
      SameSoFarSameAfter(pre + [f] + rest, pre + rest, last, menuItems, extractOne);
    }
  }

  lemma RejectedAtEnd(pre: seq<Fragment>, f: Fragment, menuItems: seq<string>, extractOne: ExtractOne)
    requires extractOne(Clean(f.phrase), menuItems).Some?
    requires extractOne(Clean(f.phrase), menuItems).value.score <= AcceptThreshold
    ensures Accumulate(pre + [f], menuItems, extractOne) == Accumulate(pre, menuItems, extractOne)
  {
    AccumulateSnoc(pre, f, menuItems, extractOne);
  }

  lemma SplitLast(a: seq<Fragment>, b: seq<Fragment>)
    requires b != []
    ensures a + b == (a + b[..|b| - 1]) + [b[|b| - 1]]
  {
  }

  /** Two fragment lists that lead to the same outcome still do after one
      more fragment. */
  lemma SameSoFarSameAfter(a: seq<Fragment>, b: seq<Fragment>, f: Fragment, menuItems: seq<string>, extractOne: ExtractOne)
    requires Accumulate(a, menuItems, extractOne) == Accumulate(b, menuItems, extractOne)
    ensures Accumulate(a + [f], menuItems, extractOne) == Accumulate(b + [f], menuItems, extractOne)
  {
    AccumulateSnoc(a, f, menuItems, extractOne);
    AccumulateSnoc(b, f, menuItems, extractOne);
  }

  /** With a well-behaved matcher the call raises exactly when there are
      fragments and no menu items to match them against. */
  lemma {:induction false} RaisesOnlyWithoutMenu(fragments: seq<Fragment>, menuItems: seq<string>, extractOne: ExtractOne)
    requires PicksFromChoices(extractOne)
    ensures Accumulate(fragments, menuItems, extractOne) == RaisesTypeError <==> fragments != [] && menuItems == []
    decreases |fragments|
  {
    if fragments != [] {
      var init := fragments[..|fragments| - 1];
      var f := fragments[|fragments| - 1];
      RaisesOnlyWithoutMenu(init, menuItems, extractOne);
      assert extractOne(Clean(f.phrase), menuItems).None? <==> menuItems == [];
    }
  }

  /** Every dish of the order is a menu item, when the matcher answers with
      one of its choices. */
  lemma {:induction false} KeysAreMenuItems(fragments: seq<Fragment>, menuItems: seq<string>, extractOne: ExtractOne, o: Order)
    requires PicksFromChoices(extractOne)
    requires Accumulate(fragments, menuItems, extractOne) == Returns(o)
    ensures forall d :: d in o.keys ==> d in menuItems
    decreases |fragments|
  {
    if fragments != [] {
      var init := fragments[..|fragments| - 1];
      var f := fragments[|fragments| - 1];
      var prev :| Accumulate(init, menuItems, extractOne) == Returns(prev);
      KeysAreMenuItems(init, menuItems, extractOne, prev);
      assert extractOne(Clean(f.phrase), menuItems).Some? ==> extractOne(Clean(f.phrase), menuItems).value.choice in menuItems;
    }
  }

  /** Two accepted mentions of the same dish give one entry holding the sum
      of their quantities. */
  lemma {:induction false} TwoMentionsAdd(f1: Fragment, f2: Fragment, dish: string, s1: int, s2: int,
                                          menuItems: seq<string>, extractOne: ExtractOne)
    requires extractOne(Clean(f1.phrase), menuItems) == Some(Match(dish, s1)) && s1 > AcceptThreshold
    requires extractOne(Clean(f2.phrase), menuItems) == Some(Match(dish, s2)) && s2 > AcceptThreshold
    ensures Accumulate([f1, f2], menuItems, extractOne).Returns?
    ensures Accumulate([f1, f2], menuItems, extractOne).value.keys == [dish]
    ensures Accumulate([f1, f2], menuItems, extractOne).value.qty[dish] == ResolveQuantity(f1.quantity) + ResolveQuantity(f2.quantity)
  {
    var q1, q2 := ResolveQuantity(f1.quantity), ResolveQuantity(f2.quantity);
    var first := AddQuantity(EmptyOrder, dish, q1);
    SingleAccepted(f1, Match(dish, s1), menuItems, extractOne);
    assert [f1] + [f2] == [f1, f2];
    AccumulateSnoc([f1], f2, menuItems, extractOne);
    StepAccepts(first, f2, menuItems, extractOne, Match(dish, s2));
    AddTwice(dish, q1, q2);
  }

  /** Adding to the same dish twice leaves one entry holding the sum. */
  lemma AddTwice(dish: string, q1: nat, q2: nat)
    ensures AddQuantity(AddQuantity(EmptyOrder, dish, q1), dish, q2).keys == [dish]
    ensures AddQuantity(AddQuantity(EmptyOrder, dish, q1), dish, q2).qty[dish] == q1 + q2
  {
    var first := AddQuantity(EmptyOrder, dish, q1);
    assert first.keys == [dish] && first.qty[dish] == q1;
  }

  /** A single accepted fragment gives a one-entry order. */
  lemma SingleAccepted(f: Fragment, m: Match, menuItems: seq<string>, extractOne: ExtractOne)
    requires extractOne(Clean(f.phrase), menuItems) == Some(m) && m.score > AcceptThreshold
    ensures Accumulate([f], menuItems, extractOne) == Returns(AddQuantity(EmptyOrder, m.choice, ResolveQuantity(f.quantity)))
  {
    assert [] + [f] == [f];
    AccumulateSnoc([], f, menuItems, extractOne);
    StepAccepts(EmptyOrder, f, menuItems, extractOne, m);
  }

  /** "dos causas, una causa": the pattern takes "dos" as the quantity of the
      first fragment, but "una" is not one of its number words, so the second
      fragment has no quantity token and counts 1; together they make 3. */
  lemma DosThenBareMentionMakeThree(p1: string, p2: string, dish: string, s1: int, s2: int,
                                    menuItems: seq<string>, extractOne: ExtractOne)
    requires extractOne(Clean(p1), menuItems) == Some(Match(dish, s1)) && s1 > AcceptThreshold
    requires extractOne(Clean(p2), menuItems) == Some(Match(dish, s2)) && s2 > AcceptThreshold
    ensures Accumulate([Fragment("dos", p1), Fragment("", p2)], menuItems, extractOne).Returns?
    ensures Accumulate([Fragment("dos", p1), Fragment("", p2)], menuItems, extractOne).value.keys == [dish]
    ensures Accumulate([Fragment("dos", p1), Fragment("", p2)], menuItems, extractOne).value.qty[dish] == 3
  {
    TwoMentionsAdd(Fragment("dos", p1), Fragment("", p2), dish, s1, s2, menuItems, extractOne);
    SpelledQuantities();
  }

  // ---- verify_order_with_menu ----

  /** The elements of `keys` that are on the menu (`onMenu`) or off it
      (`!onMenu`), in their order. */
  function Filter(keys: seq<string>, menu: seq<string>, onMenu: bool): seq<string>
    decreases |keys|
  {
    if keys == [] then []
    else
      var last := keys[|keys| - 1];
      Filter(keys[..|keys| - 1], menu, onMenu) + (if (last in menu) == onMenu then [last] else [])
  }

  /** A name is kept exactly when it is one of the keys and is on the
      menu (or off it, for the other side). */
  lemma {:induction false} FilterMembers(keys: seq<string>, menu: seq<string>, onMenu: bool, d: string)
    ensures d in Filter(keys, menu, onMenu) <==> d in keys && (d in menu) == onMenu
    decreases |keys|
  {
    if keys != [] {
      var init := keys[..|keys| - 1];
      FilterMembers(init, menu, onMenu, d);
      assert keys == init + [keys[|keys| - 1]];
    }
  }

  /** Keeping some elements of a list without repetitions keeps it without
      repetitions. */
  lemma {:induction false} FilterDistinct(keys: seq<string>, menu: seq<string>, onMenu: bool)
    requires Distinct(keys)
    ensures Distinct(Filter(keys, menu, onMenu))
    decreases |keys|
  {
    if keys != [] {
      var init := keys[..|keys| - 1];
      var last := keys[|keys| - 1];
      assert Distinct(init);
      FilterDistinct(init, menu, onMenu);
      assert last !in init;
      FilterMembers(init, menu, onMenu, last);
    }
  }

  /** The two sides of the split share out the keys between them. */
  lemma {:induction false} FilterSplits(keys: seq<string>, menu: seq<string>)
    ensures |Filter(keys, menu, true)| + |Filter(keys, menu, false)| == |keys|
    decreases |keys|
  {
    if keys != [] {
      FilterSplits(keys[..|keys| - 1], menu);
    }
  }

  /** `verify_order_with_menu`: the dishes on the menu with their quantities,
      and the names of the others, both in the order's own order. */
  method VerifyOrderWithMenu(order: Order, menu: seq<string>) returns (available: Order, unavailable: seq<string>)
    requires order.Valid()
    ensures available.Valid()
    ensures available.keys == Filter(order.keys, menu, true)
    ensures unavailable == Filter(order.keys, menu, false)
    ensures forall d :: d in available.qty <==> d in order.qty && d in menu
    ensures forall d :: d in available.qty ==> available.qty[d] == order.qty[d]
  {
    available := EmptyOrder;
    unavailable := [];
    var i := 0;
    while i < |order.keys|
      invariant 0 <= i <= |order.keys|
      invariant available.keys == Filter(order.keys[..i], menu, true)
      invariant unavailable == Filter(order.keys[..i], menu, false)
      invariant forall d :: d in available.qty <==> d in available.keys
      invariant forall d :: d in available.qty ==> d in order.qty && available.qty[d] == order.qty[d]
    {
      var dish := order.keys[i];
      assert order.keys[..i + 1][..i] == order.keys[..i];
      if dish in menu {
        available := Order(available.keys + [dish], available.qty[dish := order.qty[dish]]);
      } else {
        unavailable := unavailable + [dish];
      }
      i := i + 1;
    }
    assert order.keys[..i] == order.keys;
    FilterDistinct(order.keys, menu, true);
    forall d
      ensures d in available.qty <==> d in order.qty && d in menu
    {
      FilterMembers(order.keys, menu, true, d);
    }
  }

  /** The caller checks the order against the same full menu the dishes were
      matched from, so with a well-behaved matcher nothing is ever reported
      unavailable and every dish is available. */
  lemma FullMenuLeavesNothingUnavailable(fragments: seq<Fragment>, menuItems: seq<string>, extractOne: ExtractOne, o: Order)
    requires PicksFromChoices(extractOne)
    requires Accumulate(fragments, menuItems, extractOne) == Returns(o)
    ensures Filter(o.keys, menuItems, true) == o.keys
    ensures Filter(o.keys, menuItems, false) == []
  {
    KeysAreMenuItems(fragments, menuItems, extractOne, o);
    assert forall i :: 0 <= i < |o.keys| ==> o.keys[i] in o.keys;
    FilterAllOnMenu(o.keys, menuItems);
  }

  /** When every key is on the menu, all of them are kept and none is left out. */
  lemma {:induction false} FilterAllOnMenu(keys: seq<string>, menu: seq<string>)
    requires forall i :: 0 <= i < |keys| ==> keys[i] in menu
    ensures Filter(keys, menu, true) == keys
    ensures Filter(keys, menu, false) == []
    decreases |keys|
  {
    if keys != [] {
      var init := keys[..|keys| - 1];
      FilterAllOnMenu(init, menu);
      assert init + [keys[|keys| - 1]] == keys;
    }
  }
}
