/**
  The one-shot initial load of app/page.tsx (the first effect): what the
  dashboard's load state becomes once the client lookup and the query for the
  50 newest rows have produced their result.
 */
module Snapshot {
  import opened Wrappers
  import opened Measurements

  /**
    Shown when building the backend client throws inside the effect. A missing
    or invalid environment already throws when lib/env.ts is first imported,
    before any effect runs, so in the code this path is reached only when the
    vendor's client factory itself throws, despite what the message says.
   */
  const MissingEnvMessage: string := "Fehlende Umgebungsvariablen für Supabase."

  /** Shown when the query for the initial rows reports an error. */
  const LoadFailedMessage: string := "Fehler beim Laden der Messwerte."

  /** How the attempt to load the initial rows ended. */
  datatype SnapshotResult =
    | ClientMissing                  // building the client threw
    | QueryFailed                    // the query returned an error
    | Loaded(data: Option<View>)     // the query returned data, possibly null

  /** The part of the page state that the initial load writes. */
  datatype LoadState = LoadState(rows: View, initialLoading: bool, errorMessage: Option<string>)

  /**
    The load result applied to the page state: data replaces the view
    wholesale (null data empties it), an error keeps the view and sets its
    fixed message, and loading is over either way.
   */
  function ApplySnapshot(st: LoadState, res: SnapshotResult): (r: LoadState)
    ensures !r.initialLoading
    ensures res.Loaded? ==> r.rows == res.data.GetOr([]) && r.errorMessage == st.errorMessage
    ensures res.QueryFailed? ==> r.rows == st.rows && r.errorMessage == Some(LoadFailedMessage)
    ensures res.ClientMissing? ==> r.rows == st.rows && r.errorMessage == Some(MissingEnvMessage)
  {
    match res
    case ClientMissing => LoadState(st.rows, false, Some(MissingEnvMessage))
    case QueryFailed => LoadState(st.rows, false, Some(LoadFailedMessage))
    case Loaded(data) => LoadState(data.GetOr([]), false, st.errorMessage)
  }

  /** A successful load ignores whatever the view held before: replace, not merge. */
  lemma SnapshotForgetsPriorRows(st1: LoadState, st2: LoadState, data: Option<View>)
    requires st1.errorMessage == st2.errorMessage
    ensures ApplySnapshot(st1, Loaded(data)) == ApplySnapshot(st2, Loaded(data))
  {
  }

  /** An error leaves the view as it was; only a successful load touches it. */
  lemma SnapshotRowsChangeOnlyWhenLoaded(st: LoadState, res: SnapshotResult)
    ensures ApplySnapshot(st, res).rows != st.rows ==> res.Loaded?
  {
  }

  /** The load sets an error message exactly when it fails. */
  lemma SnapshotErrorIffFailed(st: LoadState, res: SnapshotResult)
    requires st.errorMessage.None?
    ensures ApplySnapshot(st, res).errorMessage.Some? <==> !res.Loaded?
  {
  }
}
