/** The failure counter of opstate.c: when a device is marked down and up again. */
module OpState {
  import opened Collections

  datatype Operating = Up | Down

  /** What happens to a device: a request fails or succeeds on it, or an update from the metadata
      service sets its operating state (in place, or by a replacement that carries `retries` over). */
  datatype Happening = Failure | Success | Update(state: Operating)

  /** What the handler asks the metadata service for. */
  type Asked = Option<Operating>

  // ---------------------------------------------------------------- histories

  /** Failures since the last success, whatever updates came between. */
  function Streak(h: seq<Happening>): nat {
    if h == [] then 0
    else
      match h[|h| - 1]
      case Failure => Streak(h[..|h| - 1]) + 1
      case Success => 0
      case Update(_) => Streak(h[..|h| - 1])
  }

  /** The state last set. */
  function LastState(initial: Operating, h: seq<Happening>): Operating {
    if h == [] then initial
    else if h[|h| - 1].Update? then h[|h| - 1].state
    else LastState(initial, h[..|h| - 1])
  }

  /** What the last happening of a history calls for: Down when it is the failure that completes a
      streak of the allowed length, Up when a request succeeds on a device that is down. */
  function Due(allowed: nat, initial: Operating, h: seq<Happening>): Asked
    requires h != []
  {
    var last := h[|h| - 1];
    if last == Failure && Streak(h) == allowed then Some(Down)
    else if last == Success && allowed > 0 && LastState(initial, h) == Down then Some(Up)
    else None
  }

  /** The failures in a stretch of a history. */
  function Failures(h: seq<Happening>): nat {
    if h == [] then 0 else (if h[0] == Failure then 1 else 0) + Failures(h[1..])
  }

  /** A stretch that begins the history or follows a success, and has no success itself. */
  predicate SinceSuccess(h: seq<Happening>, k: nat) {
    k <= |h| && (k == 0 || h[k - 1] == Success) && forall i :: k <= i < |h| ==> h[i] != Success
  }

  /** Down is asked for exactly by a failure that is the last of as many as are allowed since the latest
      success. */
  lemma DownIff(allowed: nat, initial: Operating, h: seq<Happening>)
    requires h != []
    ensures Due(allowed, initial, h) == Some(Down) <==>
            h[|h| - 1] == Failure && exists k: nat :: SinceSuccess(h, k) && Failures(h[k..]) == allowed
  {
    var k := StreakStart(h);
    assert forall j: nat :: SinceSuccess(h, j) ==> j == k;
  }

  lemma {:induction false} StreakStart(h: seq<Happening>) returns (k: nat)
    ensures SinceSuccess(h, k) && Failures(h[k..]) == Streak(h)
  {
    var last := |h| - 1;
    if h == [] {
      k := 0;
    } else if h[last] == Success {
      k := |h|;
    } else {
      k := StreakStart(h[..last]);
      assert h[k..] == h[..last][k..] + [h[last]];
      FailuresAppend(h[..last][k..], h[last]);
    }
  }

  lemma {:induction false} FailuresAppend(h: seq<Happening>, x: Happening)
    ensures Failures(h + [x]) == Failures(h) + if x == Failure then 1 else 0
  {
    if h != [] {
      assert (h + [x])[1..] == h[1..] + [x];
      FailuresAppend(h[1..], x);
    }
  }

  /** Up is asked for exactly by a success while the latest update, or without any the initial state,
      says down; unless the check is switched off. */
  lemma UpIff(allowed: nat, initial: Operating, h: seq<Happening>)
    requires h != []
    ensures Due(allowed, initial, h) == Some(Up) <==>
            && h[|h| - 1] == Success && allowed > 0
            && ((initial == Down && forall i :: 0 <= i < |h| ==> !h[i].Update?)
                || exists i :: LatestUpdate(h, i) && h[i].state == Down)
  {
    StateLast(initial, h);
    forall i, j | LatestUpdate(h, i) && LatestUpdate(h, j) ensures i == j {
    }
  }

  predicate LatestUpdate(h: seq<Happening>, i: int) {
    0 <= i < |h| && h[i].Update? && forall j :: i < j < |h| ==> !h[j].Update?
  }

  lemma {:induction false} StateLast(initial: Operating, h: seq<Happening>)
    ensures if forall i :: 0 <= i < |h| ==> !h[i].Update? then LastState(initial, h) == initial
            else exists i :: LatestUpdate(h, i) && LastState(initial, h) == h[i].state
  {
    if h != [] {
      var last := |h| - 1;
      if h[last].Update? {
        assert LatestUpdate(h, last);
      } else {
        StateLast(initial, h[..last]);
        forall i | LatestUpdate(h[..last], i) ensures LatestUpdate(h, i) && h[..last][i] == h[i] {
        }
      }
    }
  }

  /** An additional failure within the same streak is never answered with a second Down. */
  lemma {:induction false} NoSecondDown(allowed: nat, initial: Operating, h: seq<Happening>, i: nat, j: nat)
    requires i < j < |h|
    requires Due(allowed, initial, h[..i + 1]) == Some(Down) && Due(allowed, initial, h[..j + 1]) == Some(Down)
    ensures exists k :: i < k < j && h[k] == Success
  {
    assert h[..j + 1][..j] == h[..j];
    if forall k :: i < k < j ==> h[k] != Success {
      StreakGrows(h, i, j);
      assert false;
    }
  }

  lemma {:induction false} StreakGrows(h: seq<Happening>, i: nat, j: nat)
    requires i < j < |h| && forall k :: i < k < j ==> h[k] != Success
    ensures Streak(h[..i + 1]) <= Streak(h[..j])
  {
    if i + 1 < j {
      StreakGrows(h, i, j - 1);
      assert h[..j][..j - 1] == h[..j - 1];
    }
  }

  // ---------------------------------------------------------------- the device

  class Device {
    const allowed: nat
    ghost const initial: Operating
    var retries: int
    var operatingState: Operating
    ghost var history: seq<Happening>

    /** The counter is what is left of the allowance after the current streak; it stays where it was
        when the check is switched off. */
    ghost predicate Valid()
      reads this
    {
      && operatingState == LastState(initial, history)
      && (allowed > 0 ==> retries == allowed - Streak(history))
    }

    constructor (allowed: nat, state: Operating)
      ensures Valid() && this.allowed == allowed && initial == state && history == []
    {
      this.allowed, initial, retries, operatingState, history := allowed, state, allowed, state, [];
    }

    ghost method Record(x: Happening)
      modifies this`history
      ensures history == old(history) + [x]
      ensures Streak(history)
              == match x
                 case Failure => Streak(old(history)) + 1
                 case Success => 0
                 case Update(_) => Streak(old(history))
      ensures LastState(initial, history) == if x.Update? then x.state else LastState(initial, old(history))
    {
      assert (history + [x])[..|history|] == history;
      history := history + [x];
    }

    /** devsdk_device_request_failed. */
    method RequestFailed() returns (asked: Asked)
      requires Valid()
      modifies this
      ensures Valid() && history == old(history) + [Failure]
      ensures asked == Due(allowed, initial, history)
    {
      asked := None;
      if allowed != 0 {
        retries := retries - 1;
        if retries == 0 {
          asked := Some(Down);
        }
      }
      Record(Failure);
    }

    /** devsdk_device_request_succeeded. */
    method RequestSucceeded() returns (asked: Asked)
      requires Valid()
      modifies this
      ensures Valid() && history == old(history) + [Success]
      ensures asked == Due(allowed, initial, history)
    {
      asked := None;
      if allowed != 0 {
        retries := allowed;
        if operatingState == Down {
          asked := Some(Up);
        }
      }
      Record(Success);
    }

    /** An update arriving through the registry: the counter survives it. */
    method Updated(state: Operating)
      requires Valid()
      modifies this
      ensures Valid() && history == old(history) + [Update(state)]
      ensures retries == old(retries)
    {
      operatingState := state;
      Record(Update(state));
    }

    /** Over every run from creation, each happening is answered with exactly what is due. */
    method Run(events: seq<Happening>) returns (answers: seq<Asked>)
      requires Valid() && history == []
      modifies this
      ensures Valid() && history == events && |answers| == |events|
      ensures forall i :: 0 <= i < |events| ==>
                answers[i] == Due(allowed, initial, events[..i + 1])
    {
      answers := [];
      var i := 0;
      while i < |events|
        invariant 0 <= i <= |events| && |answers| == i
        invariant Valid() && history == events[..i]
        invariant forall k :: 0 <= k < i ==>
                    answers[k] == Due(allowed, initial, events[..k + 1])
      {
        var asked := None;
        assert events[..i + 1] == events[..i] + [events[i]];
        match events[i] {
          case Failure => asked := RequestFailed();
          case Success => asked := RequestSucceeded();
          case Update(state) => Updated(state);
        }
        answers := answers + [asked];
        i := i + 1;
      }
    }
  }
}
