/**
  The connection status of the change channel in app/page.tsx: four states,
  moved by the status notifications of the `subscribe` callback, and the
  German label the status card shows for each.
 */
module RealtimeStatus {

  datatype Status = Initializing | Active | Error | Closed

  const Subscribed: string := "SUBSCRIBED"
  const ChannelError: string := "CHANNEL_ERROR"
  const ChannelClosed: string := "CLOSED"

  /** The three notifications the callback reacts to; any other one is ignored. */
  predicate Recognized(notice: string)
  {
    notice == Subscribed || notice == ChannelError || notice == ChannelClosed
  }

  /** The status after one notification from the channel. */
  function NextStatus(s: Status, notice: string): (r: Status)
    ensures notice == Subscribed ==> r == Active
    ensures notice == ChannelError ==> r == Error
    ensures notice == ChannelClosed ==> r == Closed
    ensures !Recognized(notice) ==> r == s
    ensures r != Initializing || s == Initializing
  {
    if notice == Subscribed then Active
    else if notice == ChannelError then Error
    else if notice == ChannelClosed then Closed
    else s
  }

  /** The status after the notifications `notices`, in arrival order. */
  function StatusAfter(s: Status, notices: seq<string>): (r: Status)
    decreases |notices|
  {
    if notices == [] then s else StatusAfter(NextStatus(s, notices[0]), notices[1..])
  }

  /** Notifications the callback ignores leave the status alone. */
  lemma {:induction false} UnrecognizedKeepStatus(s: Status, notices: seq<string>)
    requires forall i :: 0 <= i < |notices| ==> !Recognized(notices[i])
    ensures StatusAfter(s, notices) == s
    decreases |notices|
  {
    if notices != [] {
      UnrecognizedKeepStatus(s, notices[1..]);
    }
  }

  /** The status always reflects the most recent recognized notification. */
  lemma {:induction false} StatusIsLastRecognized(s: Status, notices: seq<string>, k: nat)
    requires k < |notices| && Recognized(notices[k])
    requires forall j :: k < j < |notices| ==> !Recognized(notices[j])
    ensures StatusAfter(s, notices) == NextStatus(s, notices[k])
    decreases |notices|
  {
    if k == 0 {
      UnrecognizedKeepStatus(NextStatus(s, notices[0]), notices[1..]);
    } else {
      StatusIsLastRecognized(NextStatus(s, notices[0]), notices[1..], k - 1);
    }
  }

  /** Once the channel has reported anything recognized, the status never reads "initializing" again. */
  lemma {:induction false} NeverBackToInitializing(s: Status, notices: seq<string>)
    requires s != Initializing
    ensures StatusAfter(s, notices) != Initializing
    decreases |notices|
  {
    if notices != [] {
      NeverBackToInitializing(NextStatus(s, notices[0]), notices[1..]);
    }
  }

  const ActiveLabel: string := "aktiv"
  const ErrorLabel: string := "Fehler"
  const ClosedLabel: string := "geschlossen"
  const ConnectingLabel: string := "verbinden…"

  /** The label next to "Realtime:" on the status card. */
  function StatusLabel(s: Status): (text: string)
    ensures s == Active <==> text == ActiveLabel
    ensures s == Error <==> text == ErrorLabel
    ensures s == Closed <==> text == ClosedLabel
    ensures s == Initializing <==> text == ConnectingLabel
  {
    match s
    case Active => ActiveLabel
    case Error => ErrorLabel
    case Closed => ClosedLabel
    case Initializing => ConnectingLabel
  }

  /** Distinct states are shown with distinct labels. */
  lemma StatusLabelInjective(s: Status, t: Status)
    requires StatusLabel(s) == StatusLabel(t)
    ensures s == t
  {
  }
}
