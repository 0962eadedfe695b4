/** The `Children` and `Parents` tables, as rows in scan order. A `null` or
    empty name is modelled as the empty string (both are falsy). */
module Household {
  import opened Common
  import opened Dates

  datatype Child = Child(id: int, family: int, name: string, nickname: Option<string>, avatar: Option<string>, birth: Option<Date>)

  datatype Parent = Parent(id: int, family: int, name: string, birth: Option<Date>)

  /** `COALESCE(c.nickname, c.child_name)`. */
  function DisplayName(c: Child): string {
    c.nickname.GetOr(c.name)
  }

  /** The first child row with this id (the join partner of an inner join on `child_id`). */
  function FindChild(children: seq<Child>, id: int): (r: Option<nat>)
    ensures r.Some? ==> r.value < |children| && children[r.value].id == id
    ensures r.Some? ==> forall k :: 0 <= k < r.value ==> children[k].id != id
    ensures r.None? ==> forall k :: 0 <= k < |children| ==> children[k].id != id
  {
    if children == [] then None
    else if children[0].id == id then Some(0)
    else match FindChild(children[1..], id)
      case None => None
      case Some(k) => Some(k + 1)
  }

  /** The children of one family, in scan order. */
  function ChildrenOf(children: seq<Child>, family: int): (r: seq<Child>)
    ensures forall c :: c in r <==> c in children && c.family == family
    ensures |r| <= |children|
  {
    if children == [] then []
    else
      (if children[0].family == family then [children[0]] else []) + ChildrenOf(children[1..], family)
  }

  /** The filter keeps scan order: the children of a concatenation are the
      children of its first part followed by those of its second. */
  lemma {:induction false} ChildrenOfConcat(a: seq<Child>, b: seq<Child>, family: int)
    ensures ChildrenOf(a + b, family) == ChildrenOf(a, family) + ChildrenOf(b, family)
  {
    if a == [] {
      assert a + b == b;
    } else {
      var head := if a[0].family == family then [a[0]] else [];
      assert (a + b)[0] == a[0];
      calc {
        ChildrenOf(a + b, family);
        head + ChildrenOf((a + b)[1..], family);
        { assert (a + b)[1..] == a[1..] + b; }
        head + ChildrenOf(a[1..] + b, family);
        { ChildrenOfConcat(a[1..], b, family); }
        head + (ChildrenOf(a[1..], family) + ChildrenOf(b, family));
        (head + ChildrenOf(a[1..], family)) + ChildrenOf(b, family);
        ChildrenOf(a, family) + ChildrenOf(b, family);
      }
    }
  }


  /** Each child is kept as many times as it occurs when it matches, and dropped otherwise. */
  lemma {:induction false} ChildrenOfCounts(children: seq<Child>, family: int, c: Child)
    ensures multiset(ChildrenOf(children, family))[c] == (if c.family == family then multiset(children)[c] else 0)
  {
    if children != [] {
      assert children == [children[0]] + children[1..];
      ChildrenOfCounts(children[1..], family, c);
    }
  }

  /** The columns of `Events` that the task endpoints join on. */
  datatype EventInfo = EventInfo(id: int, family: int, title: string)
}
