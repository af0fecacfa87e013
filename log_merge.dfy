/**
 * `mergeLogs` (merge.py:10-37): the messages of the from-log and of the
 * to-log, from-log first, sorted stably by timestamp, into a new document
 * made of the from-log's HEAD and a BODY with the from-log's BODY
 * attributes.
 */
module LogMerge {
  import opened Wrappers
  import opened Timestamps
  import opened Elements
  import opened StableSort

  /** Why the sort key of one message cannot be computed. */
  datatype KeyFailure =
    | NoTimestamp         // `e.attrib['timestamp']` raises KeyError
    | MalformedTimestamp  // `time.strptime` raises ValueError

  /** Why `mergeLogs` raises before it writes anything. */
  datatype MergeError =
    | MissingHead                                  // `fromDoc.find('HEAD')` is None
    | BadTimestamp(index: nat, reason: KeyFailure) // the first message in from ++ to without a key
    | MissingBody                                  // `fromDoc.find('BODY')` is None

  /** The sort key of one message (the lambda at merge.py:32). */
  function KeyOf(e: Element): Result<Stamp, KeyFailure>
  {
    if "timestamp" !in e.attrib then Failure(NoTimestamp)
    else match ParseTimestamp(e.attrib["timestamp"])
      case None => Failure(MalformedTimestamp)
      case Some(st) => Success(st)
  }

  /**
   * A message has a key exactly when it has a `timestamp` attribute in the
   * layout naming a real instant; the key is then the stamp that attribute
   * is the canonical text of.
   */
  lemma KeyOfMeaning(e: Element)
    ensures KeyOf(e) == Failure(NoTimestamp) <==> "timestamp" !in e.attrib
    ensures KeyOf(e).Success? <==> "timestamp" in e.attrib && ParseTimestamp(e.attrib["timestamp"]).Some?
    ensures KeyOf(e).Success? ==>
      ValidStamp(KeyOf(e).value) && FormatTimestamp(KeyOf(e).value) == e.attrib["timestamp"]
  {
    if KeyOf(e).Success? {
      FormatParse(e.attrib["timestamp"]);
    }
  }

  /** The key of a message, when it has one. */
  function StampOf(e: Element): Option<Stamp>
  {
    match KeyOf(e)
    case Success(k) => Some(k)
    case Failure(_) => None
  }

  predicate HasKey(e: Element)
  {
    KeyOf(e).Success?
  }

  /** Every message of `es` has a sort key. */
  predicate AllHaveKeys(es: seq<Element>)
  {
    forall i :: 0 <= i < |es| ==> HasKey(es[i])
  }

  /** Position `i` holds the first message of `es` without a sort key, and `why` says why. */
  predicate FirstWithoutKey(es: seq<Element>, i: nat, why: KeyFailure)
  {
    i < |es| && KeyOf(es[i]) == Failure(why) && forall j :: 0 <= j < i ==> HasKey(es[j])
  }

  /**
   * The keys `list.sort` computes before it compares anything: one per
   * message, in list order, stopping at the first message that raises.
   */
  function KeyAll(es: seq<Element>): (r: Result<seq<Keyed<Element>>, MergeError>)
    ensures r.Success? <==> AllHaveKeys(es)
    ensures r.Success? ==> Items(r.value) == es && KeyedBy(r.value, StampOf)
    ensures r.Failure? ==> r.error.BadTimestamp? && FirstWithoutKey(es, r.error.index, r.error.reason)
  {
    match KeyAllBy(es, KeyOf)
    case Failure((i, why)) => Failure(BadTimestamp(i, why))
    case Success(ks) => Success(ks)
  }

  /** The document written to the output file (merge.py:13, 26, 34-35). */
  function OutputDocument(head: Element, bodyAttrib: map<string, string>, messages: seq<Element>): Element
  {
    Element("html", map[], "", [head, Element("BODY", bodyAttrib, "", messages, "")], "")
  }

  /** What `mergeLogs` writes, or the exception it raises first. */
  function Merge(fromDoc: Element, toDoc: Element): (r: Result<Element, MergeError>)
    ensures r == Failure(MissingHead) <==> Find(fromDoc, "HEAD").None?
    ensures r.Success? <==>
      Find(fromDoc, "HEAD").Some? && Find(fromDoc, "BODY").Some? &&
      AllHaveKeys(Messages(fromDoc) + Messages(toDoc))
    ensures r.Failure? && r.error.BadTimestamp? ==>
      Find(fromDoc, "HEAD").Some? &&
      FirstWithoutKey(Messages(fromDoc) + Messages(toDoc), r.error.index, r.error.reason)
    ensures r == Failure(MissingBody) ==>
      Find(fromDoc, "HEAD").Some? && AllHaveKeys(Messages(fromDoc) + Messages(toDoc))
    ensures r.Success? ==>
      r.value.tag == "html" && r.value.attrib == map[] && |r.value.children| == 2 &&
      r.value.children[0] == Find(fromDoc, "HEAD").value &&
      r.value.children[1].tag == "BODY" &&
      r.value.children[1].attrib == Find(fromDoc, "BODY").value.attrib
  {
    match Find(fromDoc, "HEAD")
    case None => Failure(MissingHead)
    case Some(head) =>
      match KeyAll(Messages(fromDoc) + Messages(toDoc))
      case Failure(e) => Failure(e)
      case Success(ks) =>
        match Find(fromDoc, "BODY")
        case None => Failure(MissingBody)
        case Some(body) => Success(OutputDocument(head, body.attrib, Items(SortSpec(ks))))
  }

  /** The messages of a merged document: the children of its BODY. */
  function MergedMessages(doc: Element): seq<Element>
    requires |doc.children| == 2
  {
    doc.children[1].children
  }

  /** `mergeLogs` itself: collect, concatenate, compute keys, sort in place, assemble. */
  method MergeLogs(fromDoc: Element, toDoc: Element) returns (r: Result<Element, MergeError>)
    ensures r == Merge(fromDoc, toDoc)
  {
    var head := Find(fromDoc, "HEAD");
    if head.None? {
      return Failure(MissingHead);
    }
    var allMessages := Messages(fromDoc) + Messages(toDoc);
    var keyed := KeyAll(allMessages);
    if keyed.Failure? {
      return Failure(keyed.error);
    }
    var ks := keyed.value;
    var a := new Keyed<Element>[|ks|](i requires 0 <= i < |ks| => ks[i]);
    assert a[..] == ks;
    InsertionSort(a);
    var body := Find(fromDoc, "BODY");
    if body.None? {
      return Failure(MissingBody);
    }
    r := Success(OutputDocument(head.value, body.value.attrib, Items(a[..])));
  }

  // ----- What the merged document holds -----

  /** The messages of `es` whose timestamp is `k`, in order. */
  function Stamped(es: seq<Element>, k: Stamp): seq<Element>
  {
    ItemsWithKey(es, StampOf, k)
  }

  /** On success, the merged messages are the stable sort of the keyed from ++ to messages. */
  lemma MergedMessagesAre(fromDoc: Element, toDoc: Element)
    requires Merge(fromDoc, toDoc).Success?
    ensures KeyAll(Messages(fromDoc) + Messages(toDoc)).Success?
    ensures MergedMessages(Merge(fromDoc, toDoc).value) ==
            Items(SortSpec(KeyAll(Messages(fromDoc) + Messages(toDoc)).value))
  {
  }

  /**
   * Every message of both logs is in the merged document, as often as in
   * the logs, and nothing else is.
   */
  lemma MergeKeepsEveryMessage(fromDoc: Element, toDoc: Element)
    requires Merge(fromDoc, toDoc).Success?
    ensures multiset(MergedMessages(Merge(fromDoc, toDoc).value)) ==
            multiset(Messages(fromDoc)) + multiset(Messages(toDoc))
  {
    var all := Messages(fromDoc) + Messages(toDoc);
    MergedMessagesAre(fromDoc, toDoc);
    SortSpecItems(KeyAll(all).value);
  }

  /** The merged messages all have timestamps, and their timestamps never decrease. */
  lemma MergeSorted(fromDoc: Element, toDoc: Element)
    requires Merge(fromDoc, toDoc).Success?
    ensures InKeyOrder(MergedMessages(Merge(fromDoc, toDoc).value), StampOf)
  {
    var all := Messages(fromDoc) + Messages(toDoc);
    MergedMessagesAre(fromDoc, toDoc);
    SortSpecInKeyOrder(KeyAll(all).value, StampOf);
  }

  /**
   * Ties: for every timestamp, the merged messages with that timestamp are
   * the from-log's messages with it, in their order, followed by the
   * to-log's, in theirs.
   */
  lemma MergeTies(fromDoc: Element, toDoc: Element, k: Stamp)
    requires Merge(fromDoc, toDoc).Success?
    ensures Stamped(MergedMessages(Merge(fromDoc, toDoc).value), k) ==
            Stamped(Messages(fromDoc), k) + Stamped(Messages(toDoc), k)
  {
    var all := Messages(fromDoc) + Messages(toDoc);
    MergedMessagesAre(fromDoc, toDoc);
    SortSpecItemsWithKey(KeyAll(all).value, StampOf, k);
    ItemsWithKeyAppend(Messages(fromDoc), Messages(toDoc), StampOf, k);
  }

  /**
   * When the from-log's messages followed by the to-log's are already in
   * timestamp order, the merged document holds them in exactly that order.
   */
  lemma MergeOfOrderedLogs(fromDoc: Element, toDoc: Element)
    requires Merge(fromDoc, toDoc).Success?
    requires InKeyOrder(Messages(fromDoc) + Messages(toDoc), StampOf)
    ensures MergedMessages(Merge(fromDoc, toDoc).value) == Messages(fromDoc) + Messages(toDoc)
  {
    var all := Messages(fromDoc) + Messages(toDoc);
    MergedMessagesAre(fromDoc, toDoc);
    SortSpecKeepsKeyOrder(KeyAll(all).value, StampOf);
  }

  /** The to-log contributes its messages and nothing else: not its HEAD, not its BODY attributes. */
  lemma MergeUsesOnlyToMessages(fromDoc: Element, toDoc: Element, toDoc': Element)
    requires Messages(toDoc) == Messages(toDoc')
    ensures Merge(fromDoc, toDoc) == Merge(fromDoc, toDoc')
  {
  }
}
