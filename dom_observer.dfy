/**
 * The change watcher: a `MutationObserver` on the body whose callback
 * queues the records it is given and asks for one animation frame per
 * batch of arrivals; the frame callback hands every queued record to the
 * text processor, then empties the queue.
 *
 * A node is named by the position of its opening token in the page at the
 * time its record is handled; a position past the end of the page stands
 * for a node no longer in it.
 */
module Observer {
  import opened Wrappers
  import opened Dom
  import opened TextMatching
  import opened TextProcessing
  import opened Processor
  import opened Seqs

  /** An added node: an element at a position, a text node with or without a parent element, or any other node. */
  datatype AddedNode = ElementNode(pos: nat) | TextNode(parent: Option<nat>) | OtherNode

  datatype RecordType = ChildList | CharacterData | Attributes

  /** A `MutationRecord`: its type, its `addedNodes`, and the `parentElement` of its target. */
  datatype MutationRecord = MutationRecord(kind: RecordType, addedNodes: seq<AddedNode>, targetParent: Option<nat>)

  /** The options given to `observe`. */
  datatype ObserveOptions = ObserveOptions(childList: bool, subtree: bool, characterData: bool, attributes: bool)

  const BodyOptions := ObserveOptions(true, true, true, false)

  /** The record types an observer with these options delivers. */
  predicate Delivers(opts: ObserveOptions, kind: RecordType)
  {
    match kind
    case ChildList => opts.childList
    case CharacterData => opts.characterData
    case Attributes => opts.attributes
  }

  /** Attribute changes are never delivered, so they never cause reprocessing; text and child-list changes are. */
  lemma BodyOptionsDeliver()
    ensures !Delivers(BodyOptions, Attributes)
    ensures Delivers(BodyOptions, ChildList) && Delivers(BodyOptions, CharacterData)
    ensures BodyOptions.subtree
  {
  }

  // ---------------------------------------------------------------------
  // Which subtrees a record reprocesses

  /** An added element is processed itself, an added text node through its parent element, anything else not at all. */
  function NodeTargets(n: AddedNode): seq<nat>
  {
    match n
    case ElementNode(p) => [p]
    case TextNode(Some(p)) => [p]
    case TextNode(None) => []
    case OtherNode => []
  }

  /** The roots the `forEach` over `addedNodes` processes, in order. */
  function AddedTargets(ns: seq<AddedNode>): seq<nat>
  {
    if ns == [] then [] else AddedTargets(ns[..|ns| - 1]) + NodeTargets(ns[|ns| - 1])
  }

  /** The roots one record makes the callback process. */
  function RecordTargets(r: MutationRecord): seq<nat>
  {
    match r.kind
    case ChildList => AddedTargets(r.addedNodes)
    case CharacterData => if r.targetParent.Some? then [r.targetParent.value] else []
    case Attributes => []
  }

  /** The roots `processChanges` processes for a list of records, record by record. */
  function Targets(rs: seq<MutationRecord>): seq<nat>
  {
    if rs == [] then [] else Targets(rs[..|rs| - 1]) + RecordTargets(rs[|rs| - 1])
  }

  /** Processing records in two runs names the same roots, in the same order, as processing them in one. */
  lemma {:induction false} TargetsConcat(a: seq<MutationRecord>, b: seq<MutationRecord>)
    ensures Targets(a + b) == Targets(a) + Targets(b)
    decreases |b|
  {
    if b == [] {
      assert a + b == a;
    } else {
      var b', last := b[..|b| - 1], b[|b| - 1];
      assert b == b' + [last];
      ConcatAssoc(a, b', [last]);
      TargetsSnoc(a + b', last);
      TargetsSnoc(b', last);
      TargetsConcat(a, b');
      ConcatAssoc(Targets(a), Targets(b'), RecordTargets(last));
    }
  }

  lemma TargetsSnoc(rs: seq<MutationRecord>, r: MutationRecord)
    ensures Targets(rs + [r]) == Targets(rs) + RecordTargets(r)
  {
    var s := rs + [r];
    assert s[..|s| - 1] == rs && s[|s| - 1] == r;
  }

  /**
   * A position is processed for an added-nodes list exactly when one of
   * the nodes is an element there or a text node whose parent element is
   * there.
   */
  lemma {:induction false} AddedTargetsMembers(ns: seq<AddedNode>, x: nat)
    ensures x in AddedTargets(ns) <==> exists i :: 0 <= i < |ns| && NodeTargets(ns[i]) == [x]
  {
    if ns != [] {
      var init := ns[..|ns| - 1];
      var last := ns[|ns| - 1];
      AddedTargetsMembers(init, x);
      assert AddedTargets(ns) == AddedTargets(init) + NodeTargets(last);
      assert x in NodeTargets(last) <==> NodeTargets(last) == [x];
      if x in AddedTargets(ns) {
        if x in AddedTargets(init) {
          var i :| 0 <= i < |init| && NodeTargets(init[i]) == [x];
          assert ns[i] == init[i];
        } else {
          assert NodeTargets(ns[|ns| - 1]) == [x];
        }
      }
      if exists i :: 0 <= i < |ns| && NodeTargets(ns[i]) == [x] {
        var i :| 0 <= i < |ns| && NodeTargets(ns[i]) == [x];
        if i < |init| {
          assert init[i] == ns[i];
        }
      }
    }
  }

  /** An attribute record, or a text change whose target has no parent element, changes nothing. */
  lemma NoTargets(r: MutationRecord)
    requires r.kind == Attributes || (r.kind == CharacterData && r.targetParent.None?)
    ensures RecordTargets(r) == []
  {
  }

  // ---------------------------------------------------------------------
  // What a drain does to the page

  /** The page and the processor's counters, as far as reprocessing is concerned. */
  datatype State = State(tokens: seq<Token>, nextId: nat, metrics: Metrics)

  /** `processSubtree(root, replacements, 10)`; a root past the end of the page is no longer in it and changes nothing. */
  function Reprocess(s: State, rules: seq<Rule>, root: nat): State
    requires ValidRules(rules)
  {
    if root <= |s.tokens| then
      var r := Subtree(s.tokens, root, rules, Finite(10), s.nextId).0;
      State(AfterSubtree(s.tokens, root, rules, Finite(10), s.nextId), r.nextId,
            Metrics(s.metrics.nodesProcessed + r.used, s.metrics.replacementsMade + r.replaced,
                    s.metrics.accessibilityAttributesUpdated + r.attrsUpdated))
    else s
  }

  /** The roots processed one after the other. */
  function ReprocessAll(s: State, rules: seq<Rule>, roots: seq<nat>): State
    requires ValidRules(rules)
  {
    if roots == [] then s else Reprocess(ReprocessAll(s, rules, roots[..|roots| - 1]), rules, roots[|roots| - 1])
  }

  lemma ReprocessAllSnoc(s: State, rules: seq<Rule>, roots: seq<nat>, t: nat)
    requires ValidRules(rules)
    ensures ReprocessAll(s, rules, roots + [t]) == Reprocess(ReprocessAll(s, rules, roots), rules, t)
  {
    assert (roots + [t])[..|roots|] == roots;
  }

  /**
   * Batching is invisible in the result: draining one queue that holds two
   * runs of roots leaves the page as draining them in two frames would.
   */
  lemma {:induction false} ReprocessAllConcat(s: State, rules: seq<Rule>, a: seq<nat>, b: seq<nat>)
    requires ValidRules(rules)
    ensures ReprocessAll(s, rules, a + b) == ReprocessAll(ReprocessAll(s, rules, a), rules, b)
    decreases |b|
  {
    if b == [] {
      assert a + b == a;
    } else {
      var b' := b[..|b| - 1];
      assert (a + b)[..|a + b| - 1] == a + b' && (a + b)[|a + b| - 1] == b[|b| - 1];
      ReprocessAllConcat(s, rules, a, b');
    }
  }

  /** Draining two queues one after the other is draining their concatenation. */
  lemma DrainsCompose(s: State, rules: seq<Rule>, q1: seq<MutationRecord>, q2: seq<MutationRecord>)
    requires ValidRules(rules)
    ensures ReprocessAll(ReprocessAll(s, rules, Targets(q1)), rules, Targets(q2)) == ReprocessAll(s, rules, Targets(q1 + q2))
  {
    TargetsConcat(q1, q2);
    ReprocessAllConcat(s, rules, Targets(q1), Targets(q2));
  }

  /** A record that names no root leaves everything as it was. */
  lemma ReprocessNothing(s: State, rules: seq<Rule>)
    requires ValidRules(rules)
    ensures ReprocessAll(s, rules, []) == s
  {
  }

  function Snapshot(page: Page, tp: TextProcessor): State
    reads page, tp
  {
    State(page.tokens, page.nextId, tp.GetMetrics())
  }

  // ---------------------------------------------------------------------
  // The state `setup` creates

  /**
   * The closure state of one `setup` call: its `mutationQueue`, its
   * `queued` flag and the replacements it captured; `pendingFrames` counts
   * the `requestAnimationFrame` callbacks it has asked for that have not
   * run yet.
   */
  class Batcher {
    var mutationQueue: seq<MutationRecord>
    var queued: bool
    var pendingFrames: nat
    const rules: seq<Rule>
    const processor: TextProcessor

    /** At most one frame is pending, exactly while `queued` is set, and the queue is empty when it is not. */
    predicate Valid()
      reads this
    {
      && (queued <==> pendingFrames == 1)
      && pendingFrames <= 1
      && (!queued ==> mutationQueue == [])
    }

    constructor (rules: seq<Rule>, processor: TextProcessor)
      ensures Valid()
      ensures mutationQueue == [] && !queued && pendingFrames == 0
      ensures this.rules == rules && this.processor == processor
    {
      this.rules := rules;
      this.processor := processor;
      mutationQueue := [];
      queued := false;
      pendingFrames := 0;
    }

    /** The observer callback: the batch joins the queue, and a frame is requested only if none is pending. */
    method OnMutations(mutations: seq<MutationRecord>)
      requires Valid()
      modifies this
      ensures Valid()
      ensures mutationQueue == old(mutationQueue) + mutations
      ensures queued
      ensures pendingFrames == if old(queued) then old(pendingFrames) else old(pendingFrames) + 1
    {
      mutationQueue := mutationQueue + mutations;
      if !queued {
        queued := true;
        pendingFrames := pendingFrames + 1;
      }
    }

    /**
     * `processQueuedMutations`, run by the frame the callback requested:
     * every queued record is processed in order, then the queue is emptied
     * and `queued` cleared. It does not look at whether the observer is
     * still connected.
     */
    method Drain(page: Page)
      requires Valid() && pendingFrames > 0 && ValidRules(rules)
      modifies this, processor, page
      ensures Valid()
      ensures mutationQueue == [] && !queued && pendingFrames == old(pendingFrames) - 1
      ensures Snapshot(page, processor) == ReprocessAll(old(Snapshot(page, processor)), rules, Targets(old(mutationQueue)))
      ensures page.title == old(page.title) && page.originalTitle == old(page.originalTitle)
    {
      ProcessChanges(page, mutationQueue);
      ClearQueue();
    }

    /** The end of `processQueuedMutations`: the queue emptied and `queued` cleared, the frame consumed. */
    method ClearQueue()
      requires pendingFrames > 0
      modifies this
      ensures mutationQueue == [] && !queued && pendingFrames == old(pendingFrames) - 1
    {
      mutationQueue := [];
      queued := false;
      pendingFrames := pendingFrames - 1;
    }

    /** `processChanges`: the records in order. */
    method ProcessChanges(page: Page, mutations: seq<MutationRecord>)
      requires ValidRules(rules)
      modifies processor, page
      ensures Snapshot(page, processor) == ReprocessAll(old(Snapshot(page, processor)), rules, Targets(mutations))
      ensures page.title == old(page.title) && page.originalTitle == old(page.originalTitle)
    {
      ghost var s0 := Snapshot(page, processor);
      for k := 0 to |mutations|
        invariant Snapshot(page, processor) == ReprocessAll(s0, rules, Targets(mutations[..k]))
        invariant page.title == old(page.title) && page.originalTitle == old(page.originalTitle)
      {
        ghost var done := Targets(mutations[..k]);
        ProcessRecord(page, mutations[k], s0, done);
        TargetsNext(mutations, k);
      }
      assert mutations[..|mutations|] == mutations;
    }

    /** One record: each added node of a `childList` record, or the parent of a `characterData` target. */
    method ProcessRecord(page: Page, r: MutationRecord, ghost s0: State, ghost done: seq<nat>)
      requires ValidRules(rules) && Snapshot(page, processor) == ReprocessAll(s0, rules, done)
      modifies processor, page
      ensures Snapshot(page, processor) == ReprocessAll(s0, rules, done + RecordTargets(r))
      ensures page.title == old(page.title) && page.originalTitle == old(page.originalTitle)
    {
      if r.kind == ChildList {
        ProcessAddedNodes(page, r.addedNodes, s0, done);
      } else if r.kind == CharacterData {
        if r.targetParent.Some? {
          ProcessRoot(page, r.targetParent.value, s0, done);
        } else {
          assert done + [] == done;
        }
      } else {
        assert done + [] == done;
      }
    }

    /** The `forEach` over `addedNodes`. */
    method ProcessAddedNodes(page: Page, ns: seq<AddedNode>, ghost s0: State, ghost done: seq<nat>)
      requires ValidRules(rules) && Snapshot(page, processor) == ReprocessAll(s0, rules, done)
      modifies processor, page
      ensures Snapshot(page, processor) == ReprocessAll(s0, rules, done + AddedTargets(ns))
      ensures page.title == old(page.title) && page.originalTitle == old(page.originalTitle)
    {
      assert done + AddedTargets(ns[..0]) == done;
      for i := 0 to |ns|
        invariant Snapshot(page, processor) == ReprocessAll(s0, rules, done + AddedTargets(ns[..i]))
        invariant page.title == old(page.title) && page.originalTitle == old(page.originalTitle)
      {
        ghost var before := done + AddedTargets(ns[..i]);
        ProcessNode(page, ns[i], s0, before);
        AddedTargetsNext(done, ns, i);
      }
      assert ns[..|ns|] == ns;
    }

    /** An element is processed itself, a text node through its parent element if it has one. */
    method ProcessNode(page: Page, n: AddedNode, ghost s0: State, ghost done: seq<nat>)
      requires ValidRules(rules) && Snapshot(page, processor) == ReprocessAll(s0, rules, done)
      modifies processor, page
      ensures Snapshot(page, processor) == ReprocessAll(s0, rules, done + NodeTargets(n))
      ensures page.title == old(page.title) && page.originalTitle == old(page.originalTitle)
    {
      match n
      case ElementNode(p) =>
        ProcessRoot(page, p, s0, done);
      case TextNode(parent) =>
        if parent.Some? {
          ProcessRoot(page, parent.value, s0, done);
        } else {
          assert done + NodeTargets(n) == done;
        }
      case OtherNode =>
        assert done + NodeTargets(n) == done;
    }

    /** `this.textProcessor.processSubtree(root, replacements, 10)` */
    method ProcessRoot(page: Page, root: nat, ghost s0: State, ghost done: seq<nat>)
      requires ValidRules(rules) && Snapshot(page, processor) == ReprocessAll(s0, rules, done)
      modifies processor, page
      ensures Snapshot(page, processor) == ReprocessAll(s0, rules, done + [root])
      ensures page.title == old(page.title) && page.originalTitle == old(page.originalTitle)
    {
      ReprocessAllSnoc(s0, rules, done, root);
      if root <= |page.tokens| {
        var ok := processor.ProcessSubtree(page, root, rules, Finite(10));
      }
    }
  }

  lemma TargetsNext(rs: seq<MutationRecord>, k: nat)
    requires k < |rs|
    ensures Targets(rs[..k + 1]) == Targets(rs[..k]) + RecordTargets(rs[k])
  {
    var s := rs[..k + 1];
    assert s[..|s| - 1] == rs[..k] && s[|s| - 1] == rs[k];
  }

  lemma AddedTargetsNext(done: seq<nat>, ns: seq<AddedNode>, i: nat)
    requires i < |ns|
    ensures done + AddedTargets(ns[..i + 1]) == done + AddedTargets(ns[..i]) + NodeTargets(ns[i])
  {
    var s := ns[..i + 1];
    assert s[..|s| - 1] == ns[..i] && s[|s| - 1] == ns[i];
  }

  // ---------------------------------------------------------------------
  // The watcher

  class DOMObserver {
    /** `observer`: the state of the connected observer's `setup`, if any. */
    var observer: Option<Batcher>
    const textProcessor: TextProcessor

    constructor (textProcessor: TextProcessor)
      ensures observer == None && this.textProcessor == textProcessor
    {
      this.textProcessor := textProcessor;
      observer := None;
    }

    /** `setup`: any observer there is disconnected first, then one new observer with an empty queue is connected. */
    method Setup(replacements: seq<Rule>) returns (b: Batcher)
      modifies this
      ensures fresh(b) && observer == Some(b) && b.Valid()
      ensures b.mutationQueue == [] && !b.queued && b.pendingFrames == 0
      ensures b.rules == replacements && b.processor == textProcessor
    {
      Disconnect();
      b := new Batcher(replacements, textProcessor);
      observer := Some(b);
    }

    /** `disconnect`: the observer is dropped if there is one; calling it again changes nothing. */
    method Disconnect()
      modifies this
      ensures observer == None
    {
      if observer.Some? {
        observer := None;
      }
    }
  }
}
