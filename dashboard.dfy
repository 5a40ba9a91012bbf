/**
  The state of the dashboard page of app/page.tsx and the callbacks of its
  two effects that change it: the initial load, the INSERT and UPDATE
  handlers of the change channel, the channel's status callback, and the
  cleanup that marks the page as unmounted.
 */
module Dashboard {
  import opened Wrappers
  import opened Measurements
  import opened ViewMerge
  import opened Snapshot
  import opened RealtimeStatus

  /** The view is within the cap and holds each id at most once. */
  ghost predicate WellFormed(rows: View)
  {
    |rows| <= MaxRows && DistinctIds(rows)
  }

  class Page {
    var rows: View
    var initialLoading: bool
    var errorMessage: Option<string>
    var realtimeStatus: Status
    /** The load effect's `isMounted` flag, cleared by its cleanup. */
    var isMounted: bool

    /** The page as first rendered: no rows, loading, no message, connecting. */
    constructor ()
      ensures rows == [] && initialLoading && errorMessage == None
      ensures realtimeStatus == Initializing && isMounted
    {
      rows := [];
      initialLoading := true;
      errorMessage := None;
      realtimeStatus := Initializing;
      isMounted := true;
    }

    /** What the initial load writes, read as one value. */
    function Load(): (st: LoadState)
      reads this
    {
      LoadState(rows, initialLoading, errorMessage)
    }

    /** The result of the initial load arrives; it is dropped once the page is unmounted. */
    method OnSnapshot(res: SnapshotResult)
      modifies this`rows, this`initialLoading, this`errorMessage
      ensures old(isMounted) ==> Load() == ApplySnapshot(old(Load()), res)
      ensures !old(isMounted) ==> Load() == old(Load())
      ensures WellFormed(old(rows)) && (res.Loaded? ==> WellFormed(res.data.GetOr([]))) ==> WellFormed(rows)
    {
      if !isMounted {
        return;
      }
      match res {
        case ClientMissing =>
          errorMessage := Some(MissingEnvMessage);
          initialLoading := false;
          return;
        case QueryFailed =>
          errorMessage := Some(LoadFailedMessage);
        case Loaded(data) =>
          rows := data.GetOr([]);
      }
      initialLoading := false;
    }

    /** The INSERT or UPDATE handler receives the post-change row. */
    method OnChange(kind: ChangeKind, row: Measurement)
      modifies this`rows
      ensures rows == HandleChange(old(rows), kind, row)
      ensures Latest(rows) == Some(row) && |rows| <= MaxRows
      ensures WellFormed(old(rows)) ==> WellFormed(rows)
    {
      if DistinctIds(rows) {
        ApplyChangeKeepsDistinct(rows, row);
      }
      rows := HandleChange(rows, kind, row);
    }

    /** The channel reports a status notification. */
    method OnStatus(notice: string)
      modifies this`realtimeStatus
      ensures realtimeStatus == NextStatus(old(realtimeStatus), notice)
    {
      if notice == Subscribed {
        realtimeStatus := Active;
      } else if notice == ChannelError {
        realtimeStatus := Error;
      } else if notice == ChannelClosed {
        realtimeStatus := Closed;
      }
    }

    /** The channel effect could not obtain a backend client. */
    method OnChannelClientMissing()
      modifies this`realtimeStatus
      ensures realtimeStatus == Error
    {
      realtimeStatus := Error;
    }

    /** The load effect's cleanup; running it again changes nothing more. */
    method Unmount()
      modifies this`isMounted
      ensures !isMounted
    {
      isMounted := false;
    }
  }
}
