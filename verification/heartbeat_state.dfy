/**
 The heartbeat state store: the outcome of the most recent heartbeat-file
 write. Under its lock each operation is atomic, so each one is a function
 from state to state here.
 */
module HeartbeatStore {
  import opened StatusTypes

  datatype HeartbeatState = HeartbeatState(
    path: string,
    lastWriteTs: Option<Instant>,
    lastError: Option<string>,
    bytesWritten: int)

  /** Nothing written yet and no error seen. */
  function Init(path: string): (h: HeartbeatState)
  {
    HeartbeatState(path, None, None, 0)
  }

  /** A write of `nbytes` bytes finished at `now`; any earlier error is cleared. */
  function RecordSuccess(h: HeartbeatState, nbytes: int, now: Instant): (h': HeartbeatState)
    ensures h'.path == h.path
    ensures h'.lastWriteTs == Some(now) && h'.bytesWritten == nbytes
    ensures h'.lastError.None?
  {
    h.(lastWriteTs := Some(now), lastError := None, bytesWritten := nbytes)
  }

  /** A write or directory creation failed; the last good write stays on record. */
  function RecordError(h: HeartbeatState, err: string): (h': HeartbeatState)
    ensures h'.lastError == Some(err)
    ensures h'.path == h.path && h'.lastWriteTs == h.lastWriteTs && h'.bytesWritten == h.bytesWritten
  {
    h.(lastError := Some(err))
  }

  /** A copy of the record for the renderer; with values, the copy is the record itself. */
  function Snapshot(h: HeartbeatState): (copy: HeartbeatState)
  {
    h
  }

  /** One call the heartbeat writer makes on the store. */
  datatype WriteEvent = WriteOk(nbytes: int, at: Instant) | WriteFailed(err: string)

  function Apply(h: HeartbeatState, ev: WriteEvent): (h': HeartbeatState)
  {
    match ev
    case WriteOk(n, t) => RecordSuccess(h, n, t)
    case WriteFailed(e) => RecordError(h, e)
  }

  /** The store after the events `evs`, oldest first, applied to `h`. */
  function Replay(h: HeartbeatState, evs: seq<WriteEvent>): (h': HeartbeatState)
    decreases |evs|
  {
    if evs == [] then h else Apply(Replay(h, evs[..|evs| - 1]), evs[|evs| - 1])
  }

  /** Every event after position `j` is a failed write. */
  predicate OnlyFailuresAfter(evs: seq<WriteEvent>, j: int)
  {
    forall k | j < k < |evs| && 0 <= k :: evs[k].WriteFailed?
  }

  /**
   The store after any history of writes, in terms of that history alone:
   the path never changes; the timestamp and byte count are those of the most
   recent successful write (or the initial ones when there was none), however
   many failures came after it; the error is that of the latest event if it
   failed, and absent if it succeeded.
   */
  lemma {:induction false} ReplayFromInit(path: string, evs: seq<WriteEvent>)
    ensures Replay(Init(path), evs).path == path
    ensures OnlyFailuresAfter(evs, -1) ==>
      Replay(Init(path), evs).lastWriteTs.None? && Replay(Init(path), evs).bytesWritten == 0
    ensures forall j | 0 <= j < |evs| && evs[j].WriteOk? && OnlyFailuresAfter(evs, j) ::
      Replay(Init(path), evs).lastWriteTs == Some(evs[j].at) && Replay(Init(path), evs).bytesWritten == evs[j].nbytes
    ensures Replay(Init(path), evs).lastError ==
      if evs == [] || evs[|evs| - 1].WriteOk? then None else Some(evs[|evs| - 1].err)
    decreases |evs|
  {
    if evs != [] {
      var pre := evs[..|evs| - 1];
      ReplayFromInit(path, pre);
      forall j | 0 <= j < |evs| && evs[j].WriteOk? && OnlyFailuresAfter(evs, j)
        ensures Replay(Init(path), evs).lastWriteTs == Some(evs[j].at)
        ensures Replay(Init(path), evs).bytesWritten == evs[j].nbytes
      {
        if j < |evs| - 1 {
          assert evs[|evs| - 1].WriteFailed?;
          assert pre[j] == evs[j];
          assert OnlyFailuresAfter(pre, j) by {
            forall k | j < k < |pre| && 0 <= k ensures pre[k].WriteFailed? {
              assert pre[k] == evs[k];
            }
          }
        }
      }
      if OnlyFailuresAfter(evs, -1) {
        assert OnlyFailuresAfter(pre, -1) by {
          forall k | -1 < k < |pre| && 0 <= k ensures pre[k].WriteFailed? {
            assert pre[k] == evs[k];
          }
        }
      }
    }
  }

  /** A successful write overrides everything a preceding failure recorded. */
  lemma SuccessSupersedesError(h: HeartbeatState, err: string, nbytes: int, now: Instant)
    ensures RecordSuccess(RecordError(h, err), nbytes, now) == RecordSuccess(h, nbytes, now)
  {
  }
}
