/** What becomes of every broadcast: which callbacks fired, and which requests are still active. */
module RpcHistory {
  import opened IntrusiveList

  datatype Status = Success | ConnectFailed | TimedOut | OutOfMemory | AuthFailed | Malformed | NodeError(code: int)

  datatype Phase = Pending | Completed | Cancelled

  /** One broadcast: whether its caller gave a callback, how it stands, the statuses the callback has been
      called with, and how often a connection was started for it. */
  datatype Record = Record(wanted: bool, phase: Phase, fired: seq<Status>, connects: nat)

  /** A request in the active list; `id` stands for the caller's data. */
  datatype Request = Request(id: nat, callback: bool, authRetried: bool, bufferevent: bool, timer: bool)

  /** Everything the manager has been asked for, and the requests it is waiting on, newest first. */
  datatype State = State(records: seq<Record>, active: seq<Request>)

  /** The callback fired exactly once if the broadcast completed and there is one, and otherwise not at all. */
  predicate RecordOk(r: Record) {
    (|r.fired| == if r.phase == Completed && r.wanted then 1 else 0) && r.connects <= 2
  }

  predicate RequestOk(h: seq<Record>, q: Request) {
    && q.id < |h| && h[q.id].phase == Pending && h[q.id].wanted == q.callback
    && h[q.id].connects <= if q.authRetried then 2 else 1
  }

  function Ids(qs: seq<Request>): (ids: seq<nat>)
    ensures |ids| == |qs| && forall i :: 0 <= i < |qs| ==> ids[i] == qs[i].id
  {
    seq(|qs|, i requires 0 <= i < |qs| => qs[i].id)
  }

  /** The active list holds exactly the pending broadcasts, each once. */
  ghost predicate Sound(h: seq<Record>, qs: seq<Request>) {
    && (forall i :: 0 <= i < |qs| ==> RequestOk(h, qs[i]))
    && Distinct(Ids(qs))
    && (forall id :: 0 <= id < |h| ==> RecordOk(h[id]) && (h[id].phase == Pending <==> id in Ids(qs)))
  }

  /** What is finished stays as it is. */
  ghost predicate Extends(before: seq<Record>, after: seq<Record>) {
    |before| <= |after| && forall id :: 0 <= id < |before| ==> after[id] == before[id] || before[id].phase == Pending
  }

  lemma SoundAdd(h: seq<Record>, qs: seq<Request>, callback: bool)
    requires Sound(h, qs)
    ensures Sound(h + [Record(callback, Pending, [], 0)], [Request(|h|, callback, false, false, false)] + qs)
  {
    var more, all := h + [Record(callback, Pending, [], 0)], [Request(|h|, callback, false, false, false)] + qs;
    assert forall i :: 0 < i < |all| ==> all[i] == qs[i - 1];
    assert Ids(all) == [|h|] + Ids(qs);
  }

  /** A broadcast that never got a place in the list. */
  lemma SoundRefused(h: seq<Record>, qs: seq<Request>, r: Record)
    requires Sound(h, qs) && r.phase != Pending && RecordOk(r)
    ensures Sound(h + [r], qs)
  {
  }

  /** Whatever a request turns into while it stays active. */
  lemma SoundUpdate(h: seq<Record>, qs: seq<Request>, k: nat, q: Request, r: Record)
    requires Sound(h, qs) && k < |qs| && q.id == qs[k].id
    requires RecordOk(r) && r.phase == Pending && r.wanted == q.callback && r.connects <= if q.authRetried then 2 else 1
    ensures Sound(h[q.id := r], qs[k := q])
  {
    var ids := Ids(qs);
    assert Ids(qs[k := q]) == ids;
    forall i | 0 <= i < |qs| && i != k
      ensures qs[i].id != q.id
    {
      assert ids[i] != ids[k];
    }
  }

  /** A request leaves the list as its broadcast finishes. */
  lemma SoundFinish(h: seq<Record>, qs: seq<Request>, k: nat, r: Record)
    requires Sound(h, qs) && k < |qs| && r.phase != Pending && RecordOk(r)
    ensures Sound(h[qs[k].id := r], RemoveAt(qs, k))
  {
    hide Distinct, Ids, RecordOk;
    var id, ids, rest := qs[k].id, Ids(qs), RemoveAt(qs, k);
    RemoveDistinct(ids, k);
    assert Ids(rest) == RemoveAt(ids, k);
    forall i | 0 <= i < |rest|
      ensures RequestOk(h[id := r], rest[i])
    {
      var j := if i < k then i else i + 1;
      assert rest[i] == qs[j] && ids[j] != ids[k];
    }
    forall p | 0 <= p < |h| && p != id && h[p].phase == Pending
      ensures p in Ids(rest)
    {
      var i :| 0 <= i < |ids| && ids[i] == p;
      assert RemoveAt(ids, k)[if i < k then i else i - 1] == p;
    }
  }

  /** An empty list means nothing is pending. */
  lemma NothingPending(h: seq<Record>, qs: seq<Request>)
    requires Sound(h, qs) && qs == []
    ensures forall id :: 0 <= id < |h| ==> h[id].phase != Pending
  {
  }
}
