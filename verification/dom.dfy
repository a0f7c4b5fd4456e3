/** The document head, reduced to what the stylesheet switch touches: a
    sequence of `<link>` records in document order, each with an element id
    and an href. The constant `rel`, `type` and `media` attributes are not
    kept. */
module Dom {
  import opened Nullable

  datatype Link = Link(id: string, href: string)

  type Head = seq<Link>

  /** Some element of the head carries the id. */
  predicate HasId(head: Head, id: string)
  {
    exists i :: 0 <= i < |head| && head[i].id == id
  }

  /** getElementById: the position of the first element with the id, in
      document order, or `None` (the DOM's `null`) when there is none. */
  function GetElementById(head: Head, id: string): (r: Option<nat>)
    ensures r.Some? <==> HasId(head, id)
    ensures r.Some? ==> r.value < |head| && head[r.value].id == id
    ensures r.Some? ==> forall j :: 0 <= j < r.value ==> head[j].id != id
    decreases |head|
  {
    if |head| == 0 then None
    else if head[0].id == id then Some(0)
    else
      match GetElementById(head[1..], id)
      case None => HasIdUnfold(head, id); None
      case Some(k) => Some(k + 1)
  }

  /** An id occurs in a non-empty head exactly when it is the first
      element's or occurs in the rest. */
  lemma HasIdUnfold(head: Head, id: string)
    requires |head| > 0
    ensures HasId(head, id) <==> head[0].id == id || HasId(head[1..], id)
  {
  }

  /** appendChild: the new element becomes the last child. */
  function AppendChild(head: Head, link: Link): (r: Head)
    ensures |r| == |head| + 1
    ensures r[..|head|] == head && r[|head|] == link
  {
    head + [link]
  }

  /** removeChild of the element at position `i`: every other element stays,
      in order. */
  function RemoveChild(head: Head, i: nat): (r: Head)
    requires i < |head|
    ensures |r| == |head| - 1
    ensures r[..i] == head[..i] && r[i..] == head[i + 1..]
  {
    head[..i] + head[i + 1..]
  }

  /** Number of elements carrying the id. */
  function Count(head: Head, id: string): (n: nat)
    ensures n <= |head|
    decreases |head|
  {
    if |head| == 0 then 0
    else (if head[0].id == id then 1 else 0) + Count(head[1..], id)
  }

  /** The elements that do not carry the id, in document order. */
  function Others(head: Head, id: string): (r: Head)
    ensures forall j :: 0 <= j < |r| ==> r[j].id != id
    decreases |head|
  {
    if |head| == 0 then []
    else (if head[0].id == id then [] else [head[0]]) + Others(head[1..], id)
  }

  /** Exactly one element carries the id, and its href is `href`. */
  predicate SoleLink(head: Head, id: string, href: string)
  {
    && Count(head, id) == 1
    && forall j :: 0 <= j < |head| && head[j].id == id ==> head[j].href == href
  }

  lemma {:induction false} CountConcat(a: Head, b: Head, id: string)
    ensures Count(a + b, id) == Count(a, id) + Count(b, id)
    decreases |a|
  {
    if |a| == 0 {
      assert a + b == b;
    } else {
      assert (a + b)[1..] == a[1..] + b;
      CountConcat(a[1..], b, id);
    }
  }

  lemma {:induction false} OthersConcat(a: Head, b: Head, id: string)
    ensures Others(a + b, id) == Others(a, id) + Others(b, id)
    decreases |a|
  {
    if |a| == 0 {
      assert a + b == b;
    } else {
      assert (a + b)[1..] == a[1..] + b;
      OthersConcat(a[1..], b, id);
    }
  }

  /** Removing one element that carries the id lowers the count by one and
      leaves the other elements as they were. */
  lemma RemoveCarrier(head: Head, i: nat, id: string)
    requires i < |head| && head[i].id == id
    ensures Count(RemoveChild(head, i), id) == Count(head, id) - 1
    ensures Others(RemoveChild(head, i), id) == Others(head, id)
  {
    var pre, x, post := head[..i], head[i], head[i + 1..];
    assert head == pre + ([x] + post);
    assert [x][1..] == [];
    CountConcat(pre, [x] + post, id);
    CountConcat([x], post, id);
    CountConcat(pre, post, id);
    OthersConcat(pre, [x] + post, id);
    OthersConcat([x], post, id);
    OthersConcat(pre, post, id);
  }

  /** Appending an element adds it to the count when it carries the id, and
      to the others when it does not. */
  lemma AppendOne(head: Head, link: Link, id: string)
    ensures Count(AppendChild(head, link), id)
         == Count(head, id) + (if link.id == id then 1 else 0)
    ensures link.id == id ==> Others(AppendChild(head, link), id) == Others(head, id)
  {
    assert [link][1..] == [];
    CountConcat(head, [link], id);
    OthersConcat(head, [link], id);
  }

  /** When exactly one element carries the id, it is the only one. */
  lemma {:induction false} CountOneUnique(head: Head, id: string, i: nat, j: nat)
    requires Count(head, id) == 1
    requires i < |head| && j < |head| && head[i].id == id && head[j].id == id
    ensures i == j
    decreases |head|
  {
    if head[0].id == id {
      if i != 0 || j != 0 {
        var k := if i != 0 then i else j;
        CountPositive(head[1..], id, k - 1);
        assert false;
      }
    } else {
      assert i != 0 && j != 0;
      CountOneUnique(head[1..], id, i - 1, j - 1);
    }
  }

  /** An element carrying the id makes the count positive. */
  lemma {:induction false} CountPositive(head: Head, id: string, i: nat)
    requires i < |head| && head[i].id == id
    ensures Count(head, id) > 0
    decreases |head|
  {
    if i > 0 {
      CountPositive(head[1..], id, i - 1);
    }
  }

  /** A count of one means some element carries the id. */
  lemma {:induction false} CountOneImpliesHasId(head: Head, id: string)
    requires Count(head, id) >= 1
    ensures HasId(head, id)
    decreases |head|
  {
    if head[0].id != id {
      CountOneImpliesHasId(head[1..], id);
      var i :| 0 <= i < |head[1..]| && head[1..][i].id == id;
      assert head[i + 1].id == id;
    }
  }

  /** When the sole element with the id stands last, the lookup finds it
      there. */
  lemma SoleLastIsFound(head: Head, id: string)
    requires Count(head, id) == 1
    requires |head| > 0 && head[|head| - 1].id == id
    ensures GetElementById(head, id) == Some(|head| - 1)
  {
    CountOneImpliesHasId(head, id);
    CountOneUnique(head, id, GetElementById(head, id).value, |head| - 1);
  }

  /** Appending a copy of the last element and removing the original gives
      the head back. */
  lemma ReplaceLastByCopy(head: Head)
    requires |head| > 0
    ensures RemoveChild(AppendChild(head, head[|head| - 1]), |head| - 1) == head
  {
  }

  /** When the sole element with the link's id is that very link, standing
      last, appending a copy and removing the element the lookup finds gives
      the head back. */
  lemma AppendThenRemoveSole(head: Head, link: Link)
    requires Count(head, link.id) == 1
    requires |head| > 0 && head[|head| - 1] == link
    ensures GetElementById(head, link.id).Some?
    ensures RemoveChild(AppendChild(head, link), GetElementById(head, link.id).value) == head
  {
    SoleLastIsFound(head, link.id);
    ReplaceLastByCopy(head);
  }
}
