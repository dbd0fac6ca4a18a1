/** Refinement: replaying a batch from its witness, at once or deferred through an exported segment. */
module Refinement {
  import opened Wrappers
  import opened Hashing
  import opened Keys
  import opened Ledgers
  import opened Transitions
  import opened Accumulation

  datatype DeliveryMode = Direct | Extrinsic

  datatype ExecutionMode = Immediate | Deferring | Deferred

  datatype Payload = Payload(delivery: DeliveryMode, execution: ExecutionMode, operations: seq<SignedOperation>, attached: Option<Witness>)

  datatype SegmentData = SegmentData(operations: seq<SignedOperation>, recorded: Witness)

  /** Data fetched from the host: absent, not decodable, or decoded. */
  datatype Fetched<T> = Missing | Garbled | Found(value: T)

  /** What the host offers a refinement: extrinsic 0, imported segment 0, and whether an export succeeds. */
  datatype Host = Host(extrinsic: Fetched<Witness>, imported: Fetched<SegmentData>, exportOk: bool)

  /** A refinement aborts, gives up with an empty output, or reports a root change and its exports. */
  datatype Outcome = Panicked | Rejected | Refined(change: RootChange, exports: seq<SegmentData>)

  /** The root change of a batch replayed on the partial state of a witness. */
  ghost function ReplayOutcome(digest: Digest, operations: seq<SignedOperation>, p: Snapshot): Outcome {
    match Transition(digest, p, operations)
    case None => Panicked
    case Some(after) => Refined(RootChange(GetRoot(p), GetRoot(after)), [])
  }

  ghost function RefineWitness(digest: Digest, payload: Payload, w: Witness, exportOk: bool): Outcome {
    match FromWitness(digest, w)
    case None => Rejected
    case Some(p) =>
      if !Verified(payload.operations) then Rejected
      else if payload.execution.Immediate? then ReplayOutcome(digest, payload.operations, p)
      else if exportOk then Refined(RootChange(GetRoot(p), GetRoot(p)), [SegmentData(payload.operations, w)])
      else Rejected
  }

  ghost function RefineTransition(digest: Digest, decoded: Option<Payload>, host: Host): Outcome {
    match decoded
    case None => Rejected
    case Some(payload) =>
      if payload.execution.Deferred? then
        if !host.imported.Found? then Rejected
        else
          match FromWitness(digest, host.imported.value.recorded)
          case None => Rejected
          case Some(p) => ReplayOutcome(digest, host.imported.value.operations, p)
      else
        match payload.delivery
        case Extrinsic =>
          if payload.attached.Some? then Panicked
          else if !host.extrinsic.Found? then Rejected
          else RefineWitness(digest, payload, host.extrinsic.value, host.exportOk)
        case Direct =>
          if payload.attached.None? then Panicked
          else RefineWitness(digest, payload, payload.attached.value, host.exportOk)
  }

  /** The witness reaches the refinement in the way that the payload announces, and in no other. */
  predicate Delivers(payload: Payload, host: Host, w: Witness) {
    match payload.delivery
    case Direct => payload.attached == Some(w)
    case Extrinsic => payload.attached == None && host.extrinsic == Found(w)
  }

  /** A root change that a refinement may report, and what it exports, by mode of execution. */
  ghost predicate Reports(digest: Digest, payload: Payload, host: Host, change: RootChange, exports: seq<SegmentData>) {
    match payload.execution
    case Immediate =>
      Verified(payload.operations) && exports == [] && exists w ::
        Delivers(payload, host, w) && Replays(digest, w, payload.operations, change)
    case Deferring =>
      Verified(payload.operations) && host.exportOk && exists w ::
        && Delivers(payload, host, w) && FromWitness(digest, w).Some?
        && change.previousRoot == change.newRoot == GetRoot(FromWitness(digest, w).value)
        && exports == [SegmentData(payload.operations, w)]
    case Deferred =>
      exports == [] && host.imported.Found? && Replays(digest, host.imported.value.recorded, host.imported.value.operations, change)
  }

  /** The batch runs on the state of the witness, and the change goes from its root to the root after the batch. */
  ghost predicate Replays(digest: Digest, w: Witness, operations: seq<SignedOperation>, change: RootChange) {
    && FromWitness(digest, w).Some? && Transition(digest, FromWitness(digest, w).value, operations).Some?
    && change.previousRoot == GetRoot(FromWitness(digest, w).value)
    && change.newRoot == GetRoot(Transition(digest, FromWitness(digest, w).value, operations).value)
  }

  /** A refinement reports exactly the root change of its mode, when there is one, and nothing else. */
  lemma RefinesIff(digest: Digest, decoded: Option<Payload>, host: Host, change: RootChange, exports: seq<SegmentData>)
    ensures RefineTransition(digest, decoded, host) == Refined(change, exports)
       <==> decoded.Some? && Reports(digest, decoded.value, host, change, exports)
  {
    hide FromWitness, Transition, GetRoot, Verified;
    if decoded.Some? {
      DeliveredWitness(decoded.value, host);
    }
  }

  ghost predicate Aborts(digest: Digest, w: Witness, operations: seq<SignedOperation>) {
    FromWitness(digest, w).Some? && Transition(digest, FromWitness(digest, w).value, operations).None?
  }

  /**
    A witness is attached to an extrinsic item or missing from a direct one, or the batch aborts on the
    state of its witness.
  */
  ghost predicate Panics(digest: Digest, payload: Payload, host: Host) {
    if payload.execution.Deferred?
    then host.imported.Found? && Aborts(digest, host.imported.value.recorded, host.imported.value.operations)
    else
      || (payload.delivery.Direct? && payload.attached == None)
      || (payload.delivery.Extrinsic? && payload.attached != None)
      || (payload.execution.Immediate? && Verified(payload.operations)
          && exists w :: Delivers(payload, host, w) && Aborts(digest, w, payload.operations))
  }

  /** A refinement aborts exactly then. */
  lemma PanicsIff(digest: Digest, decoded: Option<Payload>, host: Host)
    ensures RefineTransition(digest, decoded, host) == Panicked <==> decoded.Some? && Panics(digest, decoded.value, host)
  {
    hide FromWitness, Transition, GetRoot, Verified;
    if decoded.Some? {
      DeliveredWitness(decoded.value, host);
    }
  }

  lemma DeliveredWitness(payload: Payload, host: Host)
    ensures payload.delivery.Direct? && payload.attached.Some? ==> Delivers(payload, host, payload.attached.value)
    ensures payload.delivery.Extrinsic? && payload.attached.None? && host.extrinsic.Found? ==>
      Delivers(payload, host, host.extrinsic.value)
  {
  }

  /** It makes no difference whether a witness is attached or delivered as an extrinsic. */
  lemma DeliveryIrrelevant(digest: Digest, execution: ExecutionMode, operations: seq<SignedOperation>, w: Witness,
                           direct: Host, extrinsic: Host)
    requires extrinsic.extrinsic == Found(w)
    requires direct.imported == extrinsic.imported && direct.exportOk == extrinsic.exportOk
    ensures RefineTransition(digest, Some(Payload(Extrinsic, execution, operations, None)), extrinsic)
         == RefineTransition(digest, Some(Payload(Direct, execution, operations, Some(w))), direct)
  {
    hide FromWitness, Transition, GetRoot, Verified;
  }

  /** A deferred item depends on its imported segment alone. */
  lemma DeferredReadsSegment(digest: Digest, a: Payload, b: Payload, one: Host, two: Host)
    requires a.execution.Deferred? && b.execution.Deferred? && one.imported == two.imported
    ensures RefineTransition(digest, Some(a), one) == RefineTransition(digest, Some(b), two)
  {
    hide FromWitness, Transition, GetRoot;
  }

  /** The item that accumulation receives for an outcome: an empty output does not decode. */
  function ItemOf(outcome: Outcome): Item {
    match outcome
    case Panicked => Failed
    case Rejected => Undecodable
    case Refined(change, _) => Output(change)
  }

  lemma ChangesOfOne(outcome: Outcome)
    ensures RootChanges([ItemOf(outcome)]) == if outcome.Refined? then [outcome.change] else []
  {
    assert [ItemOf(outcome)][..0] == [];
  }

  lemma ChangesOfTwo(a: Outcome, b: Outcome)
    ensures RootChanges([ItemOf(a), ItemOf(b)]) == RootChanges([ItemOf(a)]) + RootChanges([ItemOf(b)])
  {
    assert [ItemOf(a), ItemOf(b)][..1] == [ItemOf(a)];
    ChangesOfOne(b);
  }

  /** A deferring item by itself never changes the root. */
  lemma DeferringKeepsRoot(digest: Digest, payload: Payload, host: Host, root: Hash)
    requires payload.execution.Deferring?
    ensures RootAfter(root, RootChanges([ItemOf(RefineTransition(digest, Some(payload), host))])) == root
  {
    hide FromWitness, GetRoot;
    ChangesOfOne(RefineTransition(digest, Some(payload), host));
  }

  /**
    A deferring item followed by the deferred item that imports its segment does what the immediate
    item does, from every root: accumulated together, or one after the other with nothing accepted
    in between.
  */
  lemma DeferredIsImmediate(digest: Digest, payload: Payload, host: Host, second: Payload, secondHost: Host, root: Hash)
    requires payload.execution.Deferring? && host.exportOk && second.execution.Deferred?
    requires var first := RefineTransition(digest, Some(payload), host);
      secondHost.imported == if first.Refined? then Found(first.exports[0]) else Missing
    ensures var first := ItemOf(RefineTransition(digest, Some(payload), host));
      var follow := ItemOf(RefineTransition(digest, Some(second), secondHost));
      var immediate := ItemOf(RefineTransition(digest, Some(payload.(execution := Immediate)), host));
      && RootAfter(root, RootChanges([first, follow])) == RootAfter(root, RootChanges([immediate]))
      && RootAfter(RootAfter(root, RootChanges([first])), RootChanges([follow])) == RootAfter(root, RootChanges([immediate]))
  {
    hide FromWitness, Transition, GetRoot, RootAfter, Chain;
    var first := RefineTransition(digest, Some(payload), host);
    var follow := RefineTransition(digest, Some(second), secondHost);
    var immediate := RefineTransition(digest, Some(payload.(execution := Immediate)), host);
    ChangesOfOne(first);
    ChangesOfOne(follow);
    ChangesOfOne(immediate);
    ChangesOfTwo(first, follow);
    DeferringKeepsRoot(digest, payload, host, root);
    if first.Refined? {
      KeepThen(root, first.change, RootChanges([ItemOf(follow)]));
    } else {
      NoChange(root);
    }
  }

  lemma NoChange(root: Hash)
    ensures RootAfter(root, []) == root
  {
  }

  /** A change from a root to itself in front of at most one change from that root adds nothing. */
  lemma KeepThen(root: Hash, keep: RootChange, rest: seq<RootChange>)
    requires keep.previousRoot == keep.newRoot && |rest| <= 1
    requires rest != [] ==> rest[0].previousRoot == keep.previousRoot
    ensures RootAfter(root, [keep] + rest) == RootAfter(root, rest)
    ensures RootAfter(root, [keep]) == root
  {
    var changes := [keep] + rest;
    if rest == [] {
      assert changes == [keep];
      if Chain(root, changes) {
        assert changes[0] == keep;
      }
    } else {
      assert changes == [keep, rest[0]] && rest == [rest[0]];
      assert RootBefore(root, changes, 1) == keep.newRoot && RootBefore(root, changes, 0) == RootBefore(root, rest, 0) == root;
      if keep.previousRoot == root {
        assert Chain(root, changes) && Chain(root, rest);
      } else {
        assert changes[0].previousRoot != root && rest[0].previousRoot != root;
        assert !Chain(root, changes) && !Chain(root, rest);
      }
    }
  }
}
