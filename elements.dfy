/**
 * The parts of the ElementTree API the merge uses, over elements taken as
 * values.  An element has a tag, an attribute map, the text before its
 * first child, its children and the text after its end tag (ElementTree's
 * `text` and `tail`; an absent text is the empty string).
 */
module Elements {
  import opened Wrappers

  datatype Element = Element(tag: string, attrib: map<string, string>, text: string,
                             children: seq<Element>, tail: string)

  /** The position of the first element of `cs` with the given tag. */
  function FirstWithTag(cs: seq<Element>, tag: string): (r: Option<nat>)
    ensures r.None? <==> forall j :: 0 <= j < |cs| ==> cs[j].tag != tag
    ensures r.Some? ==> r.value < |cs| && cs[r.value].tag == tag &&
                        forall j :: 0 <= j < r.value ==> cs[j].tag != tag
  {
    if cs == [] then None
    else if cs[0].tag == tag then Some(0)
    else match FirstWithTag(cs[1..], tag)
      case None => None
      case Some(i) => Some(i + 1)
  }

  /** `e.find(tag)`: the first child of `e` with that tag, or None. */
  function Find(e: Element, tag: string): (r: Option<Element>)
    ensures r.None? <==> forall j :: 0 <= j < |e.children| ==> e.children[j].tag != tag
    ensures r.Some? ==> exists i :: 0 <= i < |e.children| && e.children[i] == r.value &&
                          r.value.tag == tag && forall j :: 0 <= j < i ==> e.children[j].tag != tag
  {
    match FirstWithTag(e.children, tag)
    case None => None
    case Some(i) => Some(e.children[i])
  }

  /** The elements of `cs` with the given tag, in document order. */
  function WithTag(cs: seq<Element>, tag: string): seq<Element>
  {
    if cs == [] then []
    else (if cs[0].tag == tag then [cs[0]] else []) + WithTag(cs[1..], tag)
  }

  /** The elements with the tag are kept, each as often as it occurs, and no other is. */
  lemma {:induction false} WithTagCount(cs: seq<Element>, tag: string)
    ensures forall e :: multiset(WithTag(cs, tag))[e] == if e.tag == tag then multiset(cs)[e] else 0
  {
    if cs != [] {
      WithTagCount(cs[1..], tag);
      assert cs == [cs[0]] + cs[1..];
    }
  }

  /** Filtering by tag keeps document order: it distributes over concatenation. */
  lemma {:induction false} WithTagAppend(cs: seq<Element>, ds: seq<Element>, tag: string)
    ensures WithTag(cs + ds, tag) == WithTag(cs, tag) + WithTag(ds, tag)
  {
    if cs == [] {
      assert cs + ds == ds;
    } else {
      var here := if cs[0].tag == tag then [cs[0]] else [];
      assert (cs + ds)[0] == cs[0] && (cs + ds)[1..] == cs[1..] + ds;
      calc {
        WithTag(cs + ds, tag);
        here + WithTag(cs[1..] + ds, tag);
        { WithTagAppend(cs[1..], ds, tag); }
        here + (WithTag(cs[1..], tag) + WithTag(ds, tag));
        (here + WithTag(cs[1..], tag)) + WithTag(ds, tag);
        WithTag(cs, tag) + WithTag(ds, tag);
      }
    }
  }

  /** The `div` children of every element of `cs` tagged `BODY`, in document order. */
  function DivsOfBodies(cs: seq<Element>): seq<Element>
  {
    if cs == [] then []
    else (if cs[0].tag == "BODY" then WithTag(cs[0].children, "div") else []) + DivsOfBodies(cs[1..])
  }

  /** An element is collected exactly when it is a `div` child of a `BODY` in `cs`. */
  lemma {:induction false} DivsOfBodiesMembers(cs: seq<Element>)
    ensures forall e :: e in DivsOfBodies(cs) <==>
      e.tag == "div" && exists b :: b in cs && b.tag == "BODY" && e in b.children
  {
    if cs != [] {
      DivsOfBodiesMembers(cs[1..]);
      WithTagCount(cs[0].children, "div");
      assert cs == [cs[0]] + cs[1..];
      forall e | e in DivsOfBodies(cs) && e.tag == "div" && e !in DivsOfBodies(cs[1..])
        ensures cs[0].tag == "BODY" && e in cs[0].children
      {
        if cs[0].tag == "BODY" {
          assert multiset(WithTag(cs[0].children, "div"))[e] > 0;
        }
      }
    }
  }

  /** The messages of the root's children in turn, concatenated. */
  lemma {:induction false} DivsOfBodiesAppend(cs: seq<Element>, ds: seq<Element>)
    ensures DivsOfBodies(cs + ds) == DivsOfBodies(cs) + DivsOfBodies(ds)
  {
    if cs == [] {
      assert cs + ds == ds;
    } else {
      var here := if cs[0].tag == "BODY" then WithTag(cs[0].children, "div") else [];
      assert (cs + ds)[0] == cs[0] && (cs + ds)[1..] == cs[1..] + ds;
      calc {
        DivsOfBodies(cs + ds);
        here + DivsOfBodies(cs[1..] + ds);
        { DivsOfBodiesAppend(cs[1..], ds); }
        here + (DivsOfBodies(cs[1..]) + DivsOfBodies(ds));
        (here + DivsOfBodies(cs[1..])) + DivsOfBodies(ds);
        DivsOfBodies(cs) + DivsOfBodies(ds);
      }
    }
  }

  /**
   * `doc.findall('./BODY/div')`: every `div` child of every `BODY` child of
   * the root, in document order.  Nothing else in the document is a
   * message: there is no check of the `class` attribute.
   */
  function Messages(doc: Element): seq<Element>
  {
    DivsOfBodies(doc.children)
  }

  /** A message is exactly a `div` that is a direct child of a `BODY` child of the root. */
  lemma MessagesMembers(doc: Element)
    ensures forall e :: e in Messages(doc) <==>
      e.tag == "div" && exists b :: b in doc.children && b.tag == "BODY" && e in b.children
  {
    DivsOfBodiesMembers(doc.children);
  }
}
