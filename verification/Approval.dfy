/** The approval callback (_handle_approval_finish in forwarder/app/api/dingtalk.py): one approval row
    and the state of its order, committed together or rolled back together. */
module Approval {
  import opened Common
  import opened WorkOrder

  datatype Status = PENDING | AGREED | REJECTED

  /** One row of the approvals table; `status` AGREED is "APPROVED" in the source. */
  datatype Row = Row(orderNo: string, status: Status, reviewType: string)

  /** The committed contents of the two tables. */
  datatype Db = Db(orders: map<string, State>, rows: seq<Row>)

  predicate IsPending(row: Row, orderNo: string) {
    row.orderNo == orderNo && row.status == PENDING
  }

  /** The places of the pending rows of an order. */
  function PendingRows(rows: seq<Row>, orderNo: string): (r: seq<nat>)
    ensures forall k :: 0 <= k < |r| ==> r[k] < |rows| && IsPending(rows[r[k]], orderNo)
    ensures forall i :: 0 <= i < |rows| && IsPending(rows[i], orderNo) ==> i in r
  {
    if rows == [] then []
    else
      var last := |rows| - 1;
      PendingRows(rows[..last], orderNo) + if IsPending(rows[last], orderNo) then [last] else []
  }

  function Answered(rows: seq<Row>, i: nat, result: string): seq<Row>
    requires i < |rows|
  {
    rows[i := rows[i].(status := if result == "agree" then AGREED else REJECTED)]
  }

  function Target(reviewType: string, result: string): State {
    if result == "agree" then
      if reviewType == "second" then SECOND_APPROVED else APPROVED
    else
      if reviewType == "second" then SECOND_REJECTED else CLOSED
  }

  /** Raised stands for MultipleResultsFound: more than one pending row. */
  datatype Outcome = Unknown | Committed | RolledBack | Raised

  function Finish(db: Db, orderNo: string, result: string): (Db, Outcome) {
    if orderNo !in db.orders then (db, Unknown)
    else
      var pending := PendingRows(db.rows, orderNo);
      if |pending| > 1 then (db, Raised)
      else
        var rows := if pending == [] then db.rows else Answered(db.rows, pending[0], result);
        var reviewType := if pending == [] then "first" else db.rows[pending[0]].reviewType;
        match Transition(db.orders[orderNo], Target(reviewType, result))
        case Err(_) => (db, RolledBack)
        case Ok(state) => (Db(db.orders[orderNo := state], rows), Committed)
  }

  class Session {
    var orders: map<string, State>
    var rows: seq<Row>

    constructor (db: Db)
      ensures orders == db.orders && rows == db.rows
    {
      orders, rows := db.orders, db.rows;
    }

    /** Assigns the row first and the order last; a refused transition undoes both. */
    method HandleApprovalFinish(orderNo: string, result: string) returns (outcome: Outcome)
      modifies this
      ensures (Db(orders, rows), outcome) == Finish(old(Db(orders, rows)), orderNo, result)
    {
      if orderNo !in orders {
        return Unknown;
      }
      var committed := rows;
      var pending := PendingRows(rows, orderNo);
      if |pending| > 1 {
        return Raised;
      }
      var reviewType := "first";
      if |pending| == 1 {
        var row := rows[pending[0]];
        rows := rows[pending[0] := row.(status := if result == "agree" then AGREED else REJECTED)];
        reviewType := row.reviewType;
      }
      var current := orders[orderNo];
      var target: Result<State, OrderError>;
      if result == "agree" {
        if reviewType == "second" {
          target := Transition(current, SECOND_APPROVED);
        } else {
          target := Transition(current, APPROVED);
        }
      } else {
        if reviewType == "second" {
          target := Transition(current, SECOND_REJECTED);
        } else {
          target := Transition(current, CLOSED);
        }
      }
      if target.Err? {
        rows := committed;
        return RolledBack;
      }
      orders := orders[orderNo := target.value];
      return Committed;
    }
  }

  // ---- All or nothing -----------------------------------------------------------------------------

  lemma {:induction false} NonePending(rows: seq<Row>, orderNo: string)
    requires forall i :: 0 <= i < |rows| ==> !IsPending(rows[i], orderNo)
    ensures PendingRows(rows, orderNo) == []
  {
    if rows != [] {
      NonePending(rows[..|rows| - 1], orderNo);
    }
  }

  lemma AnsweringSettles(rows: seq<Row>, orderNo: string, result: string)
    requires |PendingRows(rows, orderNo)| == 1
    ensures PendingRows(Answered(rows, PendingRows(rows, orderNo)[0], result), orderNo) == []
  {
    var place := PendingRows(rows, orderNo)[0];
    var after := Answered(rows, place, result);
    forall i | 0 <= i < |after|
      ensures !IsPending(after[i], orderNo)
    {
      if i != place {
        assert after[i] == rows[i];
        assert PendingRows(rows, orderNo) == [place];
        assert i !in PendingRows(rows, orderNo);
      }
    }
    NonePending(after, orderNo);
  }

  lemma SettledRows(db: Db, orderNo: string, result: string)
    requires Finish(db, orderNo, result).1 == Committed
    ensures PendingRows(Finish(db, orderNo, result).0.rows, orderNo) == []
  {
    if |PendingRows(db.rows, orderNo)| == 1 {
      AnsweringSettles(db.rows, orderNo, result);
    }
  }

  /** A callback changes the state of its order by a legal transition and settles its pending row, if
      it has one, or it changes nothing at all; other orders and rows are never touched. */
  lemma AllOrNothing(db: Db, orderNo: string, result: string)
    ensures var (after, outcome) := Finish(db, orderNo, result);
            && (outcome != Committed ==> after == db)
            && (outcome == Committed ==>
                  && orderNo in db.orders && after.orders.Keys == db.orders.Keys
                  && CanTransition(db.orders[orderNo], after.orders[orderNo])
                  && PendingRows(after.rows, orderNo) == [])
            && |after.rows| == |db.rows|
            && (forall i :: 0 <= i < |db.rows| && !IsPending(db.rows[i], orderNo) ==> after.rows[i] == db.rows[i])
            && (forall o :: o in db.orders && o != orderNo ==> o in after.orders && after.orders[o] == db.orders[o])
  {
    if Finish(db, orderNo, result).1 == Committed {
      SettledRows(db, orderNo, result);
    }
  }

  /** A callback that finds no pending row. */
  lemma WithoutPending(db: Db, orderNo: string, result: string)
    requires orderNo in db.orders && PendingRows(db.rows, orderNo) == []
    ensures Finish(db, orderNo, result)
         == match Transition(db.orders[orderNo], if result == "agree" then APPROVED else CLOSED)
            case Err(_) => (db, RolledBack)
            case Ok(state) => (Db(db.orders[orderNo := state], db.rows), Committed)
  {
  }

  /** A committed "agree" leads to one of two states. */
  lemma AgreedState(db: Db, orderNo: string)
    requires Finish(db, orderNo, "agree").1 == Committed
    ensures orderNo in Finish(db, orderNo, "agree").0.orders
    ensures var state := Finish(db, orderNo, "agree").0.orders[orderNo];
            state == APPROVED || state == SECOND_APPROVED
  {
  }

  lemma AgreeAgain(db: Db, orderNo: string)
    requires orderNo in db.orders && PendingRows(db.rows, orderNo) == []
    requires db.orders[orderNo] == APPROVED || db.orders[orderNo] == SECOND_APPROVED
    ensures Finish(db, orderNo, "agree") == (db, RolledBack)
  {
    WithoutPending(db, orderNo, "agree");
  }

  /** A repeated "agree" changes nothing. */
  lemma AgreeIsIdempotent(db: Db, orderNo: string)
    ensures var once := Finish(db, orderNo, "agree").0;
            Finish(once, orderNo, "agree").0 == once
  {
    if Finish(db, orderNo, "agree").1 == Committed {
      SettledRows(db, orderNo, "agree");
      AgreedState(db, orderNo);
      AgreeAgain(Finish(db, orderNo, "agree").0, orderNo);
    } else {
      AllOrNothing(db, orderNo, "agree");
    }
  }

  // ---- When a callback commits --------------------------------------------------------------------

  ghost predicate TwoPending(rows: seq<Row>, orderNo: string) {
    exists i, j :: 0 <= i < j < |rows| && IsPending(rows[i], orderNo) && IsPending(rows[j], orderNo)
  }

  /** The review a callback answers: that of the one pending row, or the first review when none is. */
  ghost predicate Answers(rows: seq<Row>, orderNo: string, reviewType: string) {
    && !TwoPending(rows, orderNo)
    && (forall i :: 0 <= i < |rows| && IsPending(rows[i], orderNo) ==> rows[i].reviewType == reviewType)
    && ((forall i :: 0 <= i < |rows| ==> !IsPending(rows[i], orderNo)) ==> reviewType == "first")
  }

  lemma {:induction false} PendingRowsAscend(rows: seq<Row>, orderNo: string)
    ensures forall j, k :: 0 <= j < k < |PendingRows(rows, orderNo)| ==>
              PendingRows(rows, orderNo)[j] < PendingRows(rows, orderNo)[k]
  {
    if rows != [] {
      PendingRowsAscend(rows[..|rows| - 1], orderNo);
    }
  }

  lemma TwoPendingExactly(rows: seq<Row>, orderNo: string)
    ensures TwoPending(rows, orderNo) <==> |PendingRows(rows, orderNo)| > 1
  {
    var pending := PendingRows(rows, orderNo);
    PendingRowsAscend(rows, orderNo);
    if |pending| > 1 {
      assert IsPending(rows[pending[0]], orderNo) && IsPending(rows[pending[1]], orderNo);
    }
    forall i, j | 0 <= i < j < |rows| && IsPending(rows[i], orderNo) && IsPending(rows[j], orderNo)
      ensures |pending| > 1
    {
      assert i in pending && j in pending;
    }
  }

  /** A callback raises exactly when two rows of the order are pending. */
  lemma RaisesExactly(db: Db, orderNo: string, result: string)
    ensures Finish(db, orderNo, result).1 == Raised <==> orderNo in db.orders && TwoPending(db.rows, orderNo)
  {
    TwoPendingExactly(db.rows, orderNo);
  }

  /** It commits exactly when the order knows the transition that the answered review asks for; then
      that is the new state, and the pending row carries the answer. */
  lemma CommitsExactly(db: Db, orderNo: string, result: string, reviewType: string)
    requires Answers(db.rows, orderNo, reviewType)
    ensures var (after, outcome) := Finish(db, orderNo, result);
            var target := Target(reviewType, result);
            && (outcome == Committed <==> orderNo in db.orders && CanTransition(db.orders[orderNo], target))
            && (outcome == Committed ==>
                  && after.orders == db.orders[orderNo := target]
                  && |after.rows| == |db.rows|
                  && forall i :: 0 <= i < |db.rows| && IsPending(db.rows[i], orderNo) ==>
                       after.rows[i] == db.rows[i].(status := if result == "agree" then AGREED else REJECTED))
  {
    TwoPendingExactly(db.rows, orderNo);
    var pending := PendingRows(db.rows, orderNo);
    if pending == [] {
      assert forall i :: 0 <= i < |db.rows| ==> !IsPending(db.rows[i], orderNo);
    } else {
      assert IsPending(db.rows[pending[0]], orderNo);
    }
  }

  /** The four answers. A second review is answered in PENDING_SECOND_REVIEW only; a first one is agreed to
      in PENDING_APPROVAL only, while its refusal closes the order wherever that is possible. */
  lemma AnswersExactly(db: Db, orderNo: string, result: string, reviewType: string)
    requires orderNo in db.orders && Answers(db.rows, orderNo, reviewType)
    ensures var (after, outcome) := Finish(db, orderNo, result);
            var s := db.orders[orderNo];
            && (outcome == Committed || outcome == RolledBack)
            && (result == "agree" && reviewType == "second" ==>
                  && (outcome == Committed <==> s == PENDING_SECOND_REVIEW)
                  && (outcome == Committed ==> after.orders == db.orders[orderNo := SECOND_APPROVED]))
            && (result == "agree" && reviewType != "second" ==>
                  && (outcome == Committed <==> s == PENDING_APPROVAL)
                  && (outcome == Committed ==> after.orders == db.orders[orderNo := APPROVED]))
            && (result != "agree" && reviewType == "second" ==>
                  && (outcome == Committed <==> s == PENDING_SECOND_REVIEW)
                  && (outcome == Committed ==> after.orders == db.orders[orderNo := SECOND_REJECTED]))
            && (result != "agree" && reviewType != "second" ==>
                  && (outcome == Committed <==> s != BUILDING && s != CLOSED && s != PENDING_SECOND_REVIEW)
                  && (outcome == Committed ==> after.orders == db.orders[orderNo := CLOSED]))
  {
    CommitsExactly(db, orderNo, result, reviewType);
    RaisesExactly(db, orderNo, result);
    AnswerPossible(db.orders[orderNo]);
  }

  lemma AnswerPossible(s: State)
    ensures CanTransition(s, SECOND_APPROVED) <==> s == PENDING_SECOND_REVIEW
    ensures CanTransition(s, SECOND_REJECTED) <==> s == PENDING_SECOND_REVIEW
    ensures CanTransition(s, APPROVED) <==> s == PENDING_APPROVAL
    ensures CanTransition(s, CLOSED) <==> s != BUILDING && s != CLOSED && s != PENDING_SECOND_REVIEW
  {
    EntersExactly(s, SECOND_APPROVED);
    EntersExactly(s, SECOND_REJECTED);
    EntersExactly(s, APPROVED);
    EntersExactly(s, CLOSED);
  }

  // ---- Callbacks settle ---------------------------------------------------------------------------

  datatype Event = Event(orderNo: string, result: string)

  function AfterAll(db: Db, events: seq<Event>): Db
    decreases |events|
  {
    if events == [] then db else AfterAll(Finish(db, events[0].orderNo, events[0].result).0, events[1..])
  }

  /** How often the callbacks change the state of one order. */
  function Changes(db: Db, orderNo: string, events: seq<Event>): nat
    decreases |events|
  {
    if events == [] then 0
    else
      var (after, outcome) := Finish(db, events[0].orderNo, events[0].result);
      (if outcome == Committed && events[0].orderNo == orderNo then 1 else 0) + Changes(after, orderNo, events[1..])
  }

  lemma {:induction false} SamePending(a: seq<Row>, b: seq<Row>, orderNo: string)
    requires |a| == |b| && forall i :: 0 <= i < |a| ==> (IsPending(a[i], orderNo) <==> IsPending(b[i], orderNo))
    ensures PendingRows(a, orderNo) == PendingRows(b, orderNo)
  {
    if a != [] {
      SamePending(a[..|a| - 1], b[..|b| - 1], orderNo);
    }
  }

  lemma RowsKeepTheirOrder(db: Db, orderNo: string, result: string)
    ensures |Finish(db, orderNo, result).0.rows| == |db.rows|
    ensures forall i :: 0 <= i < |db.rows| ==> Finish(db, orderNo, result).0.rows[i].orderNo == db.rows[i].orderNo
  {
  }

  /** A callback for another order touches neither this order nor its pending rows. */
  lemma OtherOrder(db: Db, orderNo: string, event: Event)
    requires event.orderNo != orderNo
    ensures var after := Finish(db, event.orderNo, event.result).0;
            && PendingRows(after.rows, orderNo) == PendingRows(db.rows, orderNo)
            && (orderNo in after.orders <==> orderNo in db.orders)
            && (orderNo in db.orders ==> after.orders[orderNo] == db.orders[orderNo])
  {
    var after := Finish(db, event.orderNo, event.result).0;
    AllOrNothing(db, event.orderNo, event.result);
    RowsKeepTheirOrder(db, event.orderNo, event.result);
    forall i | 0 <= i < |db.rows|
      ensures IsPending(after.rows[i], orderNo) <==> IsPending(db.rows[i], orderNo)
    {
      if !IsPending(db.rows[i], event.orderNo) {
        assert after.rows[i] == db.rows[i];
      }
    }
    SamePending(after.rows, db.rows, orderNo);
  }

  /** How often the state can still change once no row is pending. */
  function Steps(s: State): nat {
    match s
    case PENDING_APPROVAL => 2
    case DRAFT => 1
    case APPROVED => 1
    case SUCCESS => 1
    case FAILED => 1
    case SECOND_APPROVED => 1
    case SECOND_REJECTED => 1
    case _ => 0
  }

  lemma {:induction false} ChangesWhenSettled(db: Db, orderNo: string, events: seq<Event>)
    requires orderNo in db.orders && PendingRows(db.rows, orderNo) == []
    ensures Changes(db, orderNo, events) <= Steps(db.orders[orderNo])
    decreases |events|
  {
    if events != [] {
      var (after, outcome) := Finish(db, events[0].orderNo, events[0].result);
      if events[0].orderNo != orderNo {
        OtherOrder(db, orderNo, events[0]);
      } else if outcome == Committed {
        SettledRows(db, orderNo, events[0].result);
      }
      ChangesWhenSettled(after, orderNo, events[1..]);
    }
  }

  /** Callbacks for any orders, interleaved in any way and with no other writer, change the state of each
      order at most twice. */
  lemma {:induction false} AtMostTwoChanges(db: Db, orderNo: string, events: seq<Event>)
    ensures Changes(db, orderNo, events) <= 2
    decreases |events|
  {
    if events != [] {
      var (after, outcome) := Finish(db, events[0].orderNo, events[0].result);
      if events[0].orderNo == orderNo && outcome == Committed {
        SettledRows(db, orderNo, events[0].result);
        ChangesWhenSettled(after, orderNo, events[1..]);
        assert Steps(after.orders[orderNo]) <= 1;
      } else {
        AtMostTwoChanges(after, orderNo, events[1..]);
      }
    }
  }

  /** Two changes do happen: an approval that is refused later closes the order. */
  lemma TwoChangesHappen()
    ensures var db := Db(map["o" := PENDING_APPROVAL], []);
            var events := [Event("o", "agree"), Event("o", "refuse")];
            Changes(db, "o", events) == 2 && AfterAll(db, events) == Db(map["o" := CLOSED], [])
  {
    var start, end := Db(map["o" := PENDING_APPROVAL], []), Db(map["o" := CLOSED], []);
    var middle := Db(map["o" := APPROVED], []);
    var events := [Event("o", "agree"), Event("o", "refuse")];
    assert events[1..] == [Event("o", "refuse")] && events[1..][1..] == [];
    WithoutPending(start, "o", "agree");
    assert CanTransition(PENDING_APPROVAL, APPROVED) && CanTransition(APPROVED, CLOSED);
    assert start.orders["o" := APPROVED] == middle.orders;
    assert Finish(start, "o", "agree") == (middle, Committed);
    WithoutPending(middle, "o", "refuse");
    assert middle.orders["o" := CLOSED] == end.orders;
    assert Finish(middle, "o", "refuse") == (end, Committed);
  }
}
