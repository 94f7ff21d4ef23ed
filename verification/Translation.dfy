/** One same-language batch: the call out, the tagged responses, the fixed output slots and back. */
module Translation {
  import opened Options
  import opened Packing

  const OUT_SLOT_BYTES: nat := 16384

  datatype Status =
    Internal | Ok | Unavailable | InvalidParams | UnsupportedPair | LanguagePackMissing | Timeout | BufferTooSmall

  /** What a failed session is mapped to. */
  type SessionError = s: Status |
    s in {Internal, Unavailable, UnsupportedPair, LanguagePackMissing, Timeout} witness Internal

  datatype Request = Request(id: string, text: Bytes, src: string, tgt: string)

  datatype Failure = NonUtf8Result | Reported(status: Status)

  datatype Outcome = Translated(text: Bytes) | Untranslated(why: Failure)

  datatype Completed = Completed(id: string, outcome: Outcome)

  /** One response of the session, tagged with the index it answers (if the tag parses as one). */
  datatype Response = Response(tag: Option<int>, text: Bytes)

  /** What the session does with one batch: nothing in time, one failure for all, or responses in any order. */
  datatype Reply = Unanswered | Refused(why: SessionError) | Answered(responses: seq<Response>)

  datatype Result = Success(text: Bytes) | Failed(why: SessionError)

  /** A session per language pair, asked about a list of texts. */
  type Session = (string, string, seq<Bytes>) -> Reply

  // ---- What each item should come back as --------------------------------

  /** The text of the last response tagged `b`. */
  function LastAnswer(responses: seq<Response>, b: int): Option<Bytes> {
    if responses == [] then None
    else
      var last := responses[|responses| - 1];
      if last.tag == Some(b) then Some(last.text) else LastAnswer(responses[..|responses| - 1], b)
  }

  function ResultAt(reply: Reply, b: nat): Result {
    match reply
    case Unanswered => Failed(Timeout)
    case Refused(why) => Failed(why)
    case Answered(responses) =>
      match LastAnswer(responses, b)
      case None => Failed(Internal)
      case Some(text) => Success(text)
  }

  function Texts(group: seq<Request>): (texts: seq<Bytes>)
    ensures |texts| == |group|
  {
    seq(|group|, i requires 0 <= i < |group| => group[i].text)
  }

  /** What an item is reported as, given its translation result. */
  function Returned(utf8: Encoding, result: Result): Outcome {
    match result
    case Failed(why) => Untranslated(Reported(why))
    case Success(text) =>
      if |text| > OUT_SLOT_BYTES then Untranslated(Reported(BufferTooSmall))
      else if utf8(text) then Translated(text)
      else Untranslated(NonUtf8Result)
  }

  /** What request `i` of a same-pair group completes with. */
  function OutcomeOf(utf8: Encoding, group: seq<Request>, ask: Session, i: nat): Outcome
    requires i < |group|
  {
    var pieces := Pieces(utf8, Texts(group));
    if group[0].src == "" || group[0].tgt == "" then Untranslated(Reported(Internal))
    else if pieces[i].None? then Untranslated(Reported(InvalidParams))
    else Returned(utf8, ResultAt(ask(group[0].src, group[0].tgt, Carried(pieces)), Rank(pieces, i)))
  }

  function Completions(utf8: Encoding, group: seq<Request>, ask: Session): (completed: seq<Completed>)
    ensures |completed| == |group|
  {
    seq(|group|, i requires 0 <= i < |group| => Completed(group[i].id, OutcomeOf(utf8, group, ask, i)))
  }

  // ---- The code ----------------------------------------------------------

  /** The pump's mapping of tagged responses to results, one per text. */
  method MapResponses(count: nat, responses: seq<Response>) returns (results: seq<Result>)
    ensures |results| == count
    ensures forall b :: 0 <= b < count ==> results[b] == ResultAt(Answered(responses), b)
  {
    results := seq(count, _ => Failed(Internal));
    for k := 0 to |responses|
      invariant |results| == count
      invariant forall b :: 0 <= b < count ==> results[b] == ResultAt(Answered(responses[..k]), b)
    {
      assert responses[..k + 1][..k] == responses[..k];
      var tag := responses[k].tag;
      if tag.Some? && 0 <= tag.value < count {
        results := results[tag.value := Success(responses[k].text)];
      }
    }
    assert responses[..|responses|] == responses;
  }

  /** Slot `i` of the output arrays reads as `result`. */
  ghost predicate Holds(bytes: seq<u8>, lens: seq<nat>, status: seq<Status>, i: nat, result: Result) {
    && i < |lens| == |status| && |bytes| == |lens| * OUT_SLOT_BYTES
    && match result
       case Failed(why) => status[i] == why && lens[i] == 0
       case Success(text) =>
         && lens[i] == |text|
         && if |text| > OUT_SLOT_BYTES then status[i] == BufferTooSmall
            else status[i] == Ok && bytes[i * OUT_SLOT_BYTES..i * OUT_SLOT_BYTES + |text|] == text
  }

  /** Writing one result into its slot leaves every other slot as it was. */
  method WriteSlot(outBytes: array<u8>, outLens: array<nat>, outStatus: array<Status>, i: nat, result: Result)
    requires i < outLens.Length == outStatus.Length && outBytes.Length == outLens.Length * OUT_SLOT_BYTES
    modifies outBytes, outLens, outStatus
    ensures Holds(outBytes[..], outLens[..], outStatus[..], i, result)
    ensures forall j: nat, r :: j != i && Holds(old(outBytes[..]), old(outLens[..]), old(outStatus[..]), j, r) ==>
      Holds(outBytes[..], outLens[..], outStatus[..], j, r)
    ensures forall j :: 0 <= j < outLens.Length && j != i ==>
      outStatus[j] == old(outStatus[j]) && outLens[j] == old(outLens[j])
  {
    match result
    case Failed(why) =>
      outStatus[i], outLens[i] := why, 0;
    case Success(text) =>
      outLens[i] := |text|;
      if |text| > OUT_SLOT_BYTES {
        outStatus[i] := BufferTooSmall;
      } else {
        forall k | 0 <= k < |text| {
          outBytes[i * OUT_SLOT_BYTES + k] := text[k];
        }
        outStatus[i] := Ok;
        assert outBytes[..][i * OUT_SLOT_BYTES..i * OUT_SLOT_BYTES + |text|] == text;
      }
  }

  /** The write-back loop: result `b` goes to the slot its text came from, the other slots keep what they held. */
  method WriteBack(results: seq<Result>, slots: seq<nat>,
                   outBytes: array<u8>, outLens: array<nat>, outStatus: array<Status>)
    requires outLens.Length == outStatus.Length && outBytes.Length == outLens.Length * OUT_SLOT_BYTES
    requires |results| == |slots| && forall b :: 0 <= b < |slots| ==> slots[b] < outLens.Length
    requires forall b, c :: 0 <= b < c < |slots| ==> slots[b] != slots[c]
    modifies outBytes, outLens, outStatus
    ensures forall b :: 0 <= b < |slots| ==> Holds(outBytes[..], outLens[..], outStatus[..], slots[b], results[b])
    ensures forall i :: 0 <= i < outLens.Length && i !in slots ==>
      outStatus[i] == old(outStatus[i]) && outLens[i] == old(outLens[i])
  {
    for b := 0 to |results|
      invariant forall c :: 0 <= c < b ==> Holds(outBytes[..], outLens[..], outStatus[..], slots[c], results[c])
      invariant forall i :: 0 <= i < outLens.Length && i !in slots ==>
        outStatus[i] == old(outStatus[i]) && outLens[i] == old(outLens[i])
    {
      WriteSlot(outBytes, outLens, outStatus, slots[b], results[b]);
    }
  }

  /** What the whole call leaves in the output arrays. */
  ghost predicate Filled(pieces: seq<Option<Bytes>>, reply: Reply,
                         bytes: seq<u8>, lens: seq<nat>, status: seq<Status>) {
    && |lens| == |status| == |pieces|
    && forall i :: 0 <= i < |pieces| ==>
         if pieces[i].None? then status[i] == InvalidParams && lens[i] == 0
         else Holds(bytes, lens, status, i, ResultAt(reply, Rank(pieces, i)))
  }

  /** The translator's side of one call. An empty language tag rejects the call before anything is written. */
  method TranslateSync(utf8: Encoding, src: string, tgt: string, lens: seq<nat>, bytes: Bytes, bound: nat, ask: Session,
                       outBytes: array<u8>, outLens: array<nat>, outStatus: array<Status>)
    returns (ghost pieces: seq<Option<Bytes>>)
    requires |lens| == outLens.Length == outStatus.Length && outBytes.Length == |lens| * OUT_SLOT_BYTES
    requires bound <= |bytes|
    modifies outBytes, outLens, outStatus
    ensures |pieces| == |lens|
    ensures forall i :: 0 <= i < |lens| ==> pieces[i] == Piece(utf8, lens, bytes, bound, i)
    ensures if src == "" || tgt == "" then outLens[..] == old(outLens[..]) && outStatus[..] == old(outStatus[..])
            else Filled(pieces, ask(src, tgt, Carried(pieces)), outBytes[..], outLens[..], outStatus[..])
  {
    var cut := Split(utf8, lens, bytes, bound);
    pieces := cut;
    if src == "" || tgt == "" {
      return;
    }
    forall i | 0 <= i < |lens| {
      outLens[i] := 0;
    }
    forall i | 0 <= i < |lens| {
      outStatus[i] := InvalidParams;
    }
    var texts, slots := Collect(cut);
    if texts == [] {
      NothingCarried(cut);
      return;
    }
    var reply := ask(src, tgt, texts);
    var results;
    match reply {
      case Unanswered => results := seq(|texts|, _ => Failed(Timeout));
      case Refused(why) => results := seq(|texts|, _ => Failed(why));
      case Answered(responses) => results := MapResponses(|texts|, responses);
    }
    WriteBack(results, slots, outBytes, outLens, outStatus);
  }

  lemma NothingCarried(pieces: seq<Option<Bytes>>)
    requires Carried(pieces) == []
    ensures forall i :: 0 <= i < |pieces| ==> pieces[i].None?
  {
    forall i | 0 <= i < |pieces| && pieces[i].Some?
      ensures false
    {
      RankFindsText(pieces, i);
    }
  }

  /** The caller's reading of slot `i`. */
  method ReadSlot(utf8: Encoding, outBytes: array<u8>, outLens: array<nat>, outStatus: array<Status>, i: nat)
    returns (outcome: Outcome)
    requires i < outLens.Length == outStatus.Length && outBytes.Length == outLens.Length * OUT_SLOT_BYTES
    ensures outStatus[i] != Ok ==> outcome == Untranslated(Reported(outStatus[i]))
    ensures forall result :: Holds(outBytes[..], outLens[..], outStatus[..], i, result) ==>
      outcome == Returned(utf8, result)
  {
    if outStatus[i] == Ok {
      var base := i * OUT_SLOT_BYTES;
      var n := if outLens[i] <= OUT_SLOT_BYTES then outLens[i] else OUT_SLOT_BYTES;
      var text := outBytes[base..base + n];
      assert outBytes[..][base..base + n] == text;
      outcome := if utf8(text) then Translated(text) else Untranslated(NonUtf8Result);
    } else {
      outcome := Untranslated(Reported(outStatus[i]));
    }
  }

  /** What the output arrays hold after a call for `reqs`: untouched defaults, or every slot filled. */
  ghost predicate Served(utf8: Encoding, reqs: seq<Request>, ask: Session,
                         bytes: seq<u8>, lens: seq<nat>, status: seq<Status>)
    requires reqs != []
  {
    var pieces := Pieces(utf8, Texts(reqs));
    if reqs[0].src == "" || reqs[0].tgt == "" then forall i :: 0 <= i < |status| ==> status[i] == Internal
    else Filled(pieces, ask(reqs[0].src, reqs[0].tgt, Carried(pieces)), bytes, lens, status)
  }

  lemma SlotMeans(utf8: Encoding, reqs: seq<Request>, ask: Session,
                  bytes: seq<u8>, lens: seq<nat>, status: seq<Status>, i: nat, outcome: Outcome)
    requires i < |reqs| == |status| && Served(utf8, reqs, ask, bytes, lens, status)
    requires status[i] != Ok ==> outcome == Untranslated(Reported(status[i]))
    requires forall result :: Holds(bytes, lens, status, i, result) ==> outcome == Returned(utf8, result)
    ensures outcome == OutcomeOf(utf8, reqs, ask, i)
  {
  }

  /** The reading of one slot, as the completion of its request. */
  method ReadOne(utf8: Encoding, reqs: seq<Request>, ask: Session,
                 outBytes: array<u8>, outLens: array<nat>, outStatus: array<Status>, i: nat)
    returns (outcome: Outcome)
    requires i < |reqs| == outLens.Length == outStatus.Length && outBytes.Length == outLens.Length * OUT_SLOT_BYTES
    requires Served(utf8, reqs, ask, outBytes[..], outLens[..], outStatus[..])
    ensures outcome == OutcomeOf(utf8, reqs, ask, i)
  {
    outcome := ReadSlot(utf8, outBytes, outLens, outStatus, i);
    SlotMeans(utf8, reqs, ask, outBytes[..], outLens[..], outStatus[..], i, outcome);
  }

  method ReadBack(utf8: Encoding, reqs: seq<Request>, ask: Session,
                  outBytes: array<u8>, outLens: array<nat>, outStatus: array<Status>)
    returns (completed: seq<Completed>)
    requires reqs != [] && |reqs| == outLens.Length == outStatus.Length
    requires outBytes.Length == outLens.Length * OUT_SLOT_BYTES
    requires Served(utf8, reqs, ask, outBytes[..], outLens[..], outStatus[..])
    ensures completed == Completions(utf8, reqs, ask)
  {
    ghost var expected := Completions(utf8, reqs, ask);
    completed := [];
    for i := 0 to |reqs|
      invariant completed == expected[..i]
    {
      var outcome := ReadOne(utf8, reqs, ask, outBytes, outLens, outStatus, i);
      completed := completed + [Completed(reqs[i].id, outcome)];
    }
  }

  /** One same-pair group in one batched call: a completion per request, in order, with its own id. */
  method TranslateGroup(utf8: Encoding, reqs: seq<Request>, ask: Session) returns (completed: seq<Completed>)
    requires reqs != []
    ensures completed == Completions(utf8, reqs, ask)
  {
    var lens, bytes := Pack(Texts(reqs));
    var outBytes := new u8[|reqs| * OUT_SLOT_BYTES](_ => 0);
    var outLens := new nat[|reqs|](_ => 0);
    var outStatus := new Status[|reqs|](_ => Internal);
    ghost var pieces := TranslateSync(utf8, reqs[0].src, reqs[0].tgt, lens, bytes, Saturated(|bytes|), ask,
                                      outBytes, outLens, outStatus);
    assert pieces == Pieces(utf8, Texts(reqs));
    completed := ReadBack(utf8, reqs, ask, outBytes, outLens, outStatus);
  }

  // ---- What the whole exchange means -------------------------------------

  /** No index is answered with two different texts. */
  ghost predicate Consistent(responses: seq<Response>) {
    forall r, s :: r in responses && s in responses && r.tag.Some? && r.tag == s.tag ==> r.text == s.text
  }

  lemma {:induction false} LastAnswerIsAnAnswer(responses: seq<Response>, b: int)
    ensures LastAnswer(responses, b).Some? ==> Response(Some(b), LastAnswer(responses, b).value) in responses
    ensures LastAnswer(responses, b).None? ==> forall r :: r in responses ==> r.tag != Some(b)
  {
    if responses != [] {
      var last, front := responses[|responses| - 1], responses[..|responses| - 1];
      assert responses == front + [last];
      if last.tag == Some(b) {
        assert last == Response(Some(b), last.text);
      } else {
        LastAnswerIsAnAnswer(front, b);
      }
    }
  }

  /** A response that no later one overrides is the one that counts. */
  lemma {:induction false} LaterAnswersOverride(responses: seq<Response>, b: int, k: nat)
    requires k < |responses| && responses[k].tag == Some(b)
    requires forall j :: k < j < |responses| ==> responses[j].tag != Some(b)
    ensures LastAnswer(responses, b) == Some(responses[k].text)
  {
    if k + 1 < |responses| {
      LaterAnswersOverride(responses[..|responses| - 1], b, k);
    }
  }

  /** A session that fails, or does not answer in time, fails every text it was asked about in the same way. */
  lemma FailureReachesAll(utf8: Encoding, group: seq<Request>, ask: Session, i: nat)
    requires i < |group| && SamePair(group) && utf8(group[i].text)
    requires group[i].src != "" && group[i].tgt != "" && |Concat(Texts(group)[..i + 1])| <= U32_MAX
    ensures var reply := ask(group[i].src, group[i].tgt, Carried(Pieces(utf8, Texts(group))));
      !reply.Answered? ==>
        Completions(utf8, group, ask)[i] == Completed(group[i].id, Untranslated(Reported(
          if group[i].text == [] then InvalidParams else if reply.Unanswered? then Timeout else reply.why)))
  {
    assert group[i] in group;
    SplitUndoesPack(utf8, Texts(group), i);
  }

  /** A text that no response is tagged for is reported as an internal failure. */
  lemma SilenceIsInternal(utf8: Encoding, group: seq<Request>, ask: Session, i: nat)
    requires i < |group| && SamePair(group) && utf8(group[i].text)
    requires group[i].src != "" && group[i].tgt != ""
    requires group[i].text != [] && |Concat(Texts(group)[..i + 1])| <= U32_MAX
    ensures var pieces := Pieces(utf8, Texts(group)); var reply := ask(group[i].src, group[i].tgt, Carried(pieces));
      reply.Answered? && (forall r :: r in reply.responses ==> r.tag != Some(Rank(pieces, i) as int)) ==>
        Completions(utf8, group, ask)[i] == Completed(group[i].id, Untranslated(Reported(Internal)))
  {
    assert group[i] in group;
    var pieces := Pieces(utf8, Texts(group));
    SplitUndoesPack(utf8, Texts(group), i);
    var reply := ask(group[i].src, group[i].tgt, Carried(pieces));
    if reply.Answered? {
      LastAnswerIsAnAnswer(reply.responses, Rank(pieces, i));
    }
  }

  /** The order in which responses arrive does not matter: each lands in the slot it is tagged for. */
  lemma OrderIsIrrelevant(responses: seq<Response>, shuffled: seq<Response>, b: nat)
    requires multiset(responses) == multiset(shuffled) && Consistent(responses)
    ensures ResultAt(Answered(responses), b) == ResultAt(Answered(shuffled), b)
  {
    LastAnswerIsAnAnswer(responses, b);
    LastAnswerIsAnAnswer(shuffled, b);
    assert forall r :: r in responses <==> r in multiset(responses);
    assert forall r :: r in shuffled <==> r in multiset(shuffled);
  }

  /** A translation of single texts, per language pair. */
  type Dictionary = (string, string, Bytes) -> Bytes

  /** `responses` translates every text under its own index, in any order, and may hold strays besides. */
  ghost predicate Translates(responses: seq<Response>, texts: seq<Bytes>, src: string, tgt: string, words: Dictionary) {
    && Consistent(responses)
    && forall b :: 0 <= b < |texts| ==> Response(Some(b), words(src, tgt, texts[b])) in responses
  }

  ghost predicate Honest(ask: Session, words: Dictionary) {
    forall src, tgt, texts {:trigger ask(src, tgt, texts)} ::
      var reply := ask(src, tgt, texts); reply.Answered? && Translates(reply.responses, texts, src, tgt, words)
  }

  /** What one request alone should complete with. */
  function Expected(utf8: Encoding, r: Request, words: Dictionary): Outcome {
    if r.src == "" || r.tgt == "" then Untranslated(Reported(Internal))
    else if r.text == [] then Untranslated(Reported(InvalidParams))
    else
      var text := words(r.src, r.tgt, r.text);
      if |text| > 16384 then Untranslated(Reported(BufferTooSmall))
      else if utf8(text) then Translated(text)
      else Untranslated(NonUtf8Result)
  }

  ghost predicate SamePair(group: seq<Request>) {
    forall r :: r in group ==> group != [] && r.src == group[0].src && r.tgt == group[0].tgt
  }

  /**
   * Batching is invisible: through an honest session, however it orders its responses, each request
   * that ends within the first 2^32 - 1 packed bytes completes as if it had been translated alone.
   */
  lemma BatchingIsInvisible(utf8: Encoding, group: seq<Request>, ask: Session, words: Dictionary, i: nat)
    requires i < |group| && SamePair(group) && Honest(ask, words) && utf8(group[i].text)
    requires |Concat(Texts(group)[..i + 1])| <= U32_MAX
    ensures Completions(utf8, group, ask)[i] == Completed(group[i].id, Expected(utf8, group[i], words))
  {
    var r, texts := group[i], Texts(group);
    var pieces := Pieces(utf8, texts);
    assert r in group;
    SplitUndoesPack(utf8, texts, i);
    if r.text != [] && r.src != "" && r.tgt != "" {
      RankFindsText(pieces, i);
      var b := Rank(pieces, i);
      var reply := ask(r.src, r.tgt, Carried(pieces));
      assert Response(Some(b), words(r.src, r.tgt, r.text)) in reply.responses;
      LastAnswerIsAnAnswer(reply.responses, b);
    }
  }
}
