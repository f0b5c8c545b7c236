/** Any number of hashers and open digests side by side: what each delivers does not
    depend on how their use interleaves. */
module HasherPool {
  import opened Words
  import opened TreeSpec
  import opened Xof
  import opened Hashing
  import opened Blake3

  datatype Step = Append(data: seq<Byte>) | TakeSum | StartOver

  /** What a caller may do with the hashers and digests it holds. A clone joins the hashers, an
      opened digest the digests; everything stays usable. */
  datatype Operation =
    | On(h: nat, step: Step)
    | CloneOf(h: nat)
    | OpenDigest(h: nat)
    | Ask(d: nat, request: Request)

  /** An open digest reads the output of the message it was opened on. */
  datatype OpenStream = OpenStream(msg: seq<Byte>, position: int)

  /** What the hashers and digests amount to. */
  datatype State = State(msgs: seq<seq<Byte>>, streams: seq<OpenStream>)

  /** The operation names a hasher or digest that is there. */
  predicate Possible(s: State, o: Operation) {
    match o
    case Ask(d, request) => d < |s.streams| && OffsetFits(request)
    case _ => o.h < |s.msgs|
  }

  function MessageAfter(msg: seq<Byte>, step: Step): seq<Byte> {
    match step
    case Append(data) => msg + data
    case TakeSum => msg
    case StartOver => []
  }

  function After(s: State, o: Operation): State
    requires Possible(s, o)
  {
    match o
    case On(h, step) => s.(msgs := s.msgs[h := MessageAfter(s.msgs[h], step)])
    case CloneOf(h) => s.(msgs := s.msgs + [s.msgs[h]])
    case OpenDigest(h) => s.(streams := s.streams + [OpenStream(s.msgs[h], 0)])
    case Ask(d, request) =>
      s.(streams := s.streams[d := s.streams[d].(position := PositionAfter(s.streams[d].position, request))])
  }

  /** What the operation delivers, said without any hasher or digest. */
  function Delivered(m: Mode, s: State, o: Operation): seq<Answer>
    requires Possible(s, o)
  {
    match o
    case On(h, step) => if step.TakeSum? then [Bytes(HashBytes(m, s.msgs[h], DIGEST_LEN))] else []
    case Ask(d, request) => [AnswerAt(m.compress, m.RootNode(s.streams[d].msg), s.streams[d].position, request)]
    case _ => []
  }

  predicate AllPossible(s: State, operations: seq<Operation>)
    decreases |operations|
  {
    operations == [] || (Possible(s, operations[0]) && AllPossible(After(s, operations[0]), operations[1..]))
  }

  function Outputs(m: Mode, s: State, operations: seq<Operation>): seq<Answer>
    requires AllPossible(s, operations)
    decreases |operations|
  {
    if operations == [] then []
    else Delivered(m, s, operations[0]) + Outputs(m, After(s, operations[0]), operations[1..])
  }

  function Appends(o: Operation): nat {
    if o.On? && o.step.Append? then |o.step.data| else 0
  }

  function Appended(operations: seq<Operation>): nat {
    if operations == [] then 0 else Appends(operations[0]) + Appended(operations[1..])
  }

  /** No message can outgrow the limit. */
  predicate RoomFor(s: State, n: nat) {
    forall i :: 0 <= i < |s.msgs| ==> |s.msgs[i]| + n < MESSAGE_LIMIT
  }

  ghost predicate Holds(h: Hasher, m: Mode, msg: seq<Byte>)
    reads h.Repr
  {
    h.Valid() && h.Setup() == m && h.msg == msg
  }

  ghost predicate Reads(d: Digest, m: Mode, stream: OpenStream)
    reads d
  {
    d.Valid() && d.compress == m.compress && d.Root() == m.RootNode(stream.msg) && d.Position() == stream.position
  }

  ghost function Objects(hashers: seq<Hasher>, digests: seq<Digest>): set<object> {
    (set h, o | h in hashers && o in h.Repr :: o) + (set d | d in digests)
  }

  /** No two hashers and digests share anything. */
  ghost predicate Separate(hashers: seq<Hasher>, digests: seq<Digest>) {
    && (forall i, j :: 0 <= i < j < |hashers| ==> hashers[i].Repr !! hashers[j].Repr)
    && (forall i, j :: 0 <= i < j < |digests| ==> digests[i] != digests[j])
    && (forall i, j :: 0 <= i < |hashers| && 0 <= j < |digests| ==> digests[j] !in hashers[i].Repr)
  }

  ghost predicate Represents(hashers: seq<Hasher>, digests: seq<Digest>, m: Mode, s: State)
    reads Objects(hashers, digests)
  {
    && |hashers| == |s.msgs| && |digests| == |s.streams|
    && (forall i :: 0 <= i < |hashers| ==> Holds(hashers[i], m, s.msgs[i]))
    && (forall i :: 0 <= i < |digests| ==> Reads(digests[i], m, s.streams[i]))
  }

  /** One step of one hasher. */
  method TakeStep(h: Hasher, ghost m: Mode, ghost msg: seq<Byte>, step: Step) returns (answers: seq<Answer>)
    requires Holds(h, m, msg) && |msg| + (if step.Append? then |step.data| else 0) < MESSAGE_LIMIT
    modifies h.Repr
    ensures Holds(h, m, MessageAfter(msg, step))
    ensures answers == if step.TakeSum? then [Bytes(HashBytes(m, msg, DIGEST_LEN))] else []
  {
    hide HashBytes, Hasher.Valid;
    answers := [];
    match step {
      case Append(data) =>
        h.Write(data);
      case TakeSum =>
        var sum := SumNil(h);
        answers := [Bytes(sum)];
      case StartOver =>
        h.Reset();
    }
  }

  method OpenOn(h: Hasher, ghost m: Mode, ghost msg: seq<Byte>) returns (digest: Digest)
    requires Holds(h, m, msg)
    modifies h.Repr
    ensures Holds(h, m, msg) && fresh(digest) && Reads(digest, m, OpenStream(msg, 0))
  {
    hide Hasher.Valid, Digest.Valid, Digest.Root, Digest.Position, Mode.RootNode;
    digest := h.FinalizeDigest();
  }

  /** A step of one hasher among others: these and the digests do not notice. */
  method StepAmong(hashers: seq<Hasher>, digests: seq<Digest>, ghost m: Mode, ghost s: State, h: nat, step: Step)
    returns (answers: seq<Answer>)
    requires Separate(hashers, digests) && Represents(hashers, digests, m, s)
    requires h < |s.msgs| && RoomFor(s, Appends(On(h, step)))
    modifies hashers[h].Repr
    ensures Represents(hashers, digests, m, s.(msgs := s.msgs[h := MessageAfter(s.msgs[h], step)]))
    ensures answers == Delivered(m, s, On(h, step))
  {
    hide HashBytes, Hasher.Valid, Hasher.Setup, Digest.Valid, Digest.Root, Digest.Position, Mode.RootNode;
    hide MessageAfter;
    answers := TakeStep(hashers[h], m, s.msgs[h], step);
    forall i | 0 <= i < |hashers| && i != h ensures Holds(hashers[i], m, s.msgs[i]) {
      assert hashers[i].Repr !! hashers[h].Repr;
    }
  }

  method OpenAmong(hashers: seq<Hasher>, digests: seq<Digest>, ghost m: Mode, ghost s: State, h: nat)
    returns (digest: Digest)
    requires Separate(hashers, digests) && Represents(hashers, digests, m, s) && h < |s.msgs|
    modifies hashers[h].Repr
    ensures Represents(hashers, digests, m, s)
    ensures fresh(digest) && Reads(digest, m, OpenStream(s.msgs[h], 0))
  {
    hide Hasher.Valid, Hasher.Setup, Digest.Valid, Digest.Root, Digest.Position, Mode.RootNode;
    digest := OpenOn(hashers[h], m, s.msgs[h]);
    forall i | 0 <= i < |hashers| && i != h ensures Holds(hashers[i], m, s.msgs[i]) {
      assert hashers[i].Repr !! hashers[h].Repr;
    }
  }

  /** A request to one digest among others. */
  method AskAmong(hashers: seq<Hasher>, digests: seq<Digest>, ghost m: Mode, ghost s: State, d: nat, request: Request)
    returns (answer: Answer)
    requires Separate(hashers, digests) && Represents(hashers, digests, m, s)
    requires d < |s.streams| && OffsetFits(request)
    modifies digests[d]
    ensures Represents(hashers, digests, m, After(s, Ask(d, request)))
    ensures [answer] == Delivered(m, s, Ask(d, request))
  {
    hide Hasher.Valid, Hasher.Setup, Digest.Valid, Digest.Root, Digest.Position, Mode.RootNode;
    hide AnswerAt, PositionAfter;
    answer := ServeOne(digests[d], request);
    forall i | 0 <= i < |digests| && i != d ensures Reads(digests[i], m, s.streams[i]) {
      assert digests[i] != digests[d];
    }
  }

  /** Carries out one operation. */
  method Perform(hashers: seq<Hasher>, digests: seq<Digest>, ghost m: Mode, ghost s: State, o: Operation)
    returns (hashers': seq<Hasher>, digests': seq<Digest>, answers: seq<Answer>)
    requires Separate(hashers, digests) && Represents(hashers, digests, m, s)
    requires Possible(s, o) && RoomFor(s, Appends(o))
    modifies Objects(hashers, digests)
    ensures Separate(hashers', digests') && Represents(hashers', digests', m, After(s, o))
    ensures fresh(Objects(hashers', digests') - Objects(hashers, digests))
    ensures answers == Delivered(m, s, o)
  {
    hide HashBytes, Hasher.Valid, Hasher.Setup, Digest.Valid, Digest.Root, Digest.Position, Stream, Mode.RootNode;
    hashers', digests', answers := hashers, digests, [];
    match o {
      case On(h, step) =>
        answers := StepAmong(hashers, digests, m, s, h, step);
      case CloneOf(h) =>
        var clone := Clone(hashers[h]);
        hashers' := hashers + [clone];
      case OpenDigest(h) =>
        var digest := OpenAmong(hashers, digests, m, s, h);
        digests' := digests + [digest];
      case Ask(d, request) =>
        var answer := AskAmong(hashers, digests, m, s, d, request);
        answers := [answer];
    }
  }

  /** Any interleaving of operations on any hashers and digests, whatever state they start in. */
  method Replay(hashers: seq<Hasher>, digests: seq<Digest>, ghost m: Mode, ghost s: State, operations: seq<Operation>)
    returns (outputs: seq<Answer>)
    requires Separate(hashers, digests) && Represents(hashers, digests, m, s)
    requires AllPossible(s, operations) && RoomFor(s, Appended(operations))
    modifies Objects(hashers, digests)
    ensures outputs == Outputs(m, s, operations)
    decreases |operations|
  {
    hide Separate, Represents, Delivered;
    if operations == [] {
      return [];
    }
    RoomStays(s, operations);
    var hashers', digests', answers := Perform(hashers, digests, m, s, operations[0]);
    var rest := Replay(hashers', digests', m, After(s, operations[0]), operations[1..]);
    outputs := answers + rest;
  }

  lemma RoomStays(s: State, operations: seq<Operation>)
    requires operations != [] && AllPossible(s, operations) && RoomFor(s, Appended(operations))
    ensures RoomFor(s, Appends(operations[0]))
    ensures RoomFor(After(s, operations[0]), Appended(operations[1..]))
  {
  }
}
