/** The `tokens` table of the token backend (Backend/models/tokenModel.ts) and
    its two routes: `POST /storeToken` (Backend/routes/producerRoutes.ts) inserts
    one row, and `GET /getTokens` (Backend/routes/consumerRoutes.ts) answers the
    rows not yet displayed and then marks every undisplayed row as displayed, so
    that each stored token reaches the consumer once. The table lives in memory:
    its rows and its AUTO_INCREMENT counter. Coordinates are carried through
    without arithmetic. */
module TokenStore {
  import opened Wrappers

  /** A FLOAT column value; the model only moves it around. */
  type Coordinate = real

  /** `timestamp VARCHAR(255) NOT NULL`. */
  const TimestampMaxLength: nat := 255

  /** The first value an AUTO_INCREMENT column hands out. */
  const FirstId: nat := 1

  datatype TokenRow = TokenRow(id: nat, timestamp: string, latitude: Coordinate, longitude: Coordinate,
                               displayed: bool)

  /** The fields `/storeToken` takes from the request body; a missing field
      reaches the INSERT as NULL. */
  datatype StoreBody = StoreBody(timestamp: Option<string>, latitude: Option<Coordinate>,
                                 longitude: Option<Coordinate>)

  /** The rows of the table, in insertion order, and the next AUTO_INCREMENT value. */
  datatype TableState = TableState(rows: seq<TokenRow>, nextId: nat)

  predicate IdsIncreasing(rows: seq<TokenRow>) {
    forall i, j | 0 <= i < j < |rows| :: rows[i].id < rows[j].id
  }

  /** The primary key holds: ids increase along the table and all lie below the counter. */
  predicate WellFormed(s: TableState) {
    && IdsIncreasing(s.rows)
    && forall i | 0 <= i < |s.rows| :: s.rows[i].id < s.nextId
  }

  /** The largest magnitude a single-precision FLOAT column stores, 3.402823466E+38. */
  const FloatMax: real := 340282346600000000000000000000000000000.0

  /** The largest value of the `id INT AUTO_INCREMENT` column. Once the counter
      has handed it out, every later INSERT fails. */
  const MaxId: nat := 2147483647

  predicate InFloatRange(x: Coordinate) {
    -FloatMax <= x <= FloatMax
  }

  /** The INSERT goes through when every NOT NULL column gets a value, the
      timestamp fits its VARCHAR(255) column, both coordinates lie in the FLOAT
      range (strict SQL mode) and the counter has an INT id left to hand out.
      The handler itself checks nothing. */
  predicate Insertable(s: TableState, body: StoreBody) {
    && body.timestamp.Some? && body.latitude.Some? && body.longitude.Some?
    && |body.timestamp.value| <= TimestampMaxLength
    && InFloatRange(body.latitude.value) && InFloatRange(body.longitude.value)
    && s.nextId <= MaxId
  }

  /** The row an INSERT with these values adds: the next id, the given values
      unchanged, and `displayed` at its column default, false. */
  function NewRow(s: TableState, body: StoreBody): TokenRow
    requires Insertable(s, body)
  {
    TokenRow(s.nextId, body.timestamp.value, body.latitude.value, body.longitude.value, false)
  }

  /** The table after `/storeToken`: the rows already there stay as they were;
      an accepted row is appended with the next id and `displayed` false, and
      the counter moves on; a refused row leaves the table unchanged. */
  function AfterStore(s: TableState, body: StoreBody): (r: TableState)
    ensures |r.rows| == |s.rows| + (if Insertable(s, body) then 1 else 0)
    ensures r.rows[..|s.rows|] == s.rows
    ensures r.nextId == s.nextId + (if Insertable(s, body) then 1 else 0)
    ensures Insertable(s, body) ==>
              r.rows[|s.rows|] == TokenRow(s.nextId, body.timestamp.value, body.latitude.value,
                                           body.longitude.value, false)
  {
    if Insertable(s, body) then TableState(s.rows + [NewRow(s, body)], s.nextId + 1) else s
  }

  /** `SELECT * FROM tokens WHERE displayed = false`. */
  function Undisplayed(rows: seq<TokenRow>): (r: seq<TokenRow>)
    ensures |r| <= |rows|
    ensures forall t | t in r :: t in rows && !t.displayed
    ensures forall i | 0 <= i < |rows| && !rows[i].displayed :: rows[i] in r
  {
    if rows == [] then []
    else (if rows[0].displayed then [] else [rows[0]]) + Undisplayed(rows[1..])
  }

  /** `UPDATE tokens SET displayed = true WHERE displayed = false`: every row ends
      displayed and keeps its id, timestamp and coordinates. */
  function MarkedDisplayed(rows: seq<TokenRow>): (r: seq<TokenRow>)
    ensures |r| == |rows|
    ensures forall i | 0 <= i < |rows| :: r[i] == rows[i].(displayed := true)
  {
    if rows == [] then [] else [rows[0].(displayed := true)] + MarkedDisplayed(rows[1..])
  }

  /** The table after the UPDATE step of `/getTokens`: every row is displayed,
      nothing else about any row changes, and no id is used up. */
  function AfterClaim(s: TableState): (r: TableState)
    ensures r.nextId == s.nextId && |r.rows| == |s.rows|
    ensures forall i | 0 <= i < |s.rows| ::
              r.rows[i].displayed && r.rows[i].(displayed := s.rows[i].displayed) == s.rows[i]
  {
    TableState(MarkedDisplayed(s.rows), s.nextId)
  }

  class TokenTable {
    var rows: seq<TokenRow>
    var nextId: nat

    function State(): TableState
      reads this
    {
      TableState(rows, nextId)
    }

    ghost predicate Valid()
      reads this
    {
      WellFormed(State())
    }

    /** `CREATE TABLE IF NOT EXISTS tokens (...)` on a fresh database. */
    constructor ()
      ensures Valid() && rows == [] && nextId == FirstId
    {
      rows, nextId := [], FirstId;
    }

    /** `POST /storeToken`: INSERT the body's timestamp and coordinates and answer
        201, or answer 500 when the database refuses the row. */
    method StoreToken(body: StoreBody) returns (status: int)
      requires Valid()
      modifies this
      ensures Valid()
      ensures status == (if Insertable(old(State()), body) then 201 else 500)
      ensures State() == AfterStore(old(State()), body)
    {
      StoreKeepsWellFormed(State(), body);
      if Insertable(State(), body) {
        rows := rows + [NewRow(State(), body)];
        nextId := nextId + 1;
        status := 201;
      } else {
        status := 500;
      }
    }

    /** The SELECT step of `/getTokens`. */
    method SelectUndisplayed() returns (selected: seq<TokenRow>)
      ensures selected == Undisplayed(rows)
    {
      selected := Undisplayed(rows);
    }

    /** The UPDATE step of `/getTokens`. */
    method MarkAllDisplayed()
      requires Valid()
      modifies this
      ensures Valid()
      ensures State() == AfterClaim(old(State()))
    {
      ClaimKeepsWellFormed(State());
      rows := MarkedDisplayed(rows);
    }

    /** `GET /getTokens`: the SELECT, then the UPDATE, then the selected rows as
        the response. */
    method GetTokens() returns (tokens: seq<TokenRow>)
      requires Valid()
      modifies this
      ensures Valid()
      ensures tokens == Undisplayed(old(rows))
      ensures State() == AfterClaim(old(State()))
    {
      tokens := SelectUndisplayed();
      MarkAllDisplayed();
    }
  }

  /** A store keeps the key well formed; the new row's id is larger than every
      id already in the table. */
  lemma StoreKeepsWellFormed(s: TableState, body: StoreBody)
    requires WellFormed(s)
    ensures WellFormed(AfterStore(s, body))
    ensures Insertable(s, body) ==> forall t | t in s.rows :: t.id < NewRow(s, body).id
  {
  }

  /** A claim keeps the key well formed. */
  lemma ClaimKeepsWellFormed(s: TableState)
    requires WellFormed(s)
    ensures WellFormed(AfterClaim(s))
  {
  }

  /** After a claim nothing is left undisplayed, so a second claim with no store
      in between answers the empty list. */
  lemma SecondClaimReturnsNothing(s: TableState)
    ensures Undisplayed(AfterClaim(s).rows) == []
  {
    NothingPendingSelectsNothing(AfterClaim(s).rows);
  }

  lemma {:induction false} NothingPendingSelectsNothing(rows: seq<TokenRow>)
    requires forall i | 0 <= i < |rows| :: rows[i].displayed
    ensures Undisplayed(rows) == []
  {
    if rows != [] {
      NothingPendingSelectsNothing(rows[1..]);
    }
  }

  /** A store adds its row, undisplayed, to the end of what the next SELECT sees,
      and leaves the rows already pending as they were. */
  lemma {:induction false} UndisplayedAfterAppend(rows: seq<TokenRow>, row: TokenRow)
    ensures Undisplayed(rows + [row]) == Undisplayed(rows) + (if row.displayed then [] else [row])
  {
    var tail := if row.displayed then [] else [row];
    if rows == [] {
      assert rows + [row] == [row];
      assert [row][1..] == [];
    } else {
      var head := if rows[0].displayed then [] else [rows[0]];
      assert (rows + [row])[0] == rows[0];
      assert (rows + [row])[1..] == rows[1..] + [row];
      UndisplayedAfterAppend(rows[1..], row);
      calc {
        Undisplayed(rows + [row]);
        head + Undisplayed(rows[1..] + [row]);
        head + (Undisplayed(rows[1..]) + tail);
        (head + Undisplayed(rows[1..])) + tail;
        Undisplayed(rows) + tail;
      }
    }
  }

  /** The SELECT answers rows in table order, so their ids increase. */
  lemma {:induction false} UndisplayedKeepsOrder(rows: seq<TokenRow>)
    requires IdsIncreasing(rows)
    ensures IdsIncreasing(Undisplayed(rows))
  {
    if rows != [] {
      UndisplayedKeepsOrder(rows[1..]);
      var rest := Undisplayed(rows[1..]);
      forall t | t in rest ensures rows[0].id < t.id {
        var k :| 0 <= k < |rows[1..]| && rows[1..][k] == t;
        assert rows[k + 1] == t;
      }
    }
  }

  /** A request the backend receives, handled as one sequential step. */
  datatype Request = StoreRequest(body: StoreBody) | GetTokensRequest

  /** The table after the requests run one after another from `s`. */
  function Run(s: TableState, requests: seq<Request>): (r: TableState)
    ensures s.nextId <= r.nextId
    ensures WellFormed(s) ==> WellFormed(r)
    decreases |requests|
  {
    if requests == [] then s
    else
      match requests[0]
      case StoreRequest(body) => Run(AfterStore(s, body), requests[1..])
      case GetTokensRequest => Run(AfterClaim(s), requests[1..])
  }

  /** Everything the `/getTokens` responses deliver, in order, when the requests
      run one after another from `s`. Only undisplayed rows are delivered, and
      nothing is delivered without a `/getTokens` request. */
  function Deliveries(s: TableState, requests: seq<Request>): (r: seq<TokenRow>)
    ensures forall t | t in r :: !t.displayed
    ensures GetTokensRequest !in requests ==> r == []
    decreases |requests|
  {
    if requests == [] then []
    else
      match requests[0]
      case StoreRequest(body) => Deliveries(AfterStore(s, body), requests[1..])
      case GetTokensRequest => Undisplayed(s.rows) + Deliveries(AfterClaim(s), requests[1..])
  }

  /** Running `a` and then `b` delivers what `a` delivers followed by what `b`
      delivers from the table `a` leaves. */
  lemma {:induction false} DeliveriesAppend(s: TableState, a: seq<Request>, b: seq<Request>)
    ensures Run(s, a + b) == Run(Run(s, a), b)
    ensures Deliveries(s, a + b) == Deliveries(s, a) + Deliveries(Run(s, a), b)
    decreases |a|
  {
    if a != [] {
      assert (a + b)[0] == a[0];
      assert (a + b)[1..] == a[1..] + b;
      match a[0]
      case StoreRequest(body) =>
        DeliveriesAppend(AfterStore(s, body), a[1..], b);
      case GetTokensRequest =>
        DeliveriesAppend(AfterClaim(s), a[1..], b);
    } else {
      assert a + b == b;
    }
  }

  /** Every token delivered by a run of requests has an id the counter had
      already handed out when the run ended. */
  lemma {:induction false} DeliveredBelowCounter(s: TableState, requests: seq<Request>)
    requires WellFormed(s)
    ensures forall t | t in Deliveries(s, requests) :: t.id < Run(s, requests).nextId
    decreases |requests|
  {
    if requests != [] {
      var rest := requests[1..];
      match requests[0]
      case StoreRequest(body) =>
        StoreKeepsWellFormed(s, body);
        DeliveredBelowCounter(AfterStore(s, body), rest);
      case GetTokensRequest =>
        ClaimKeepsWellFormed(s);
        DeliveredBelowCounter(AfterClaim(s), rest);
        var end := Run(AfterClaim(s), rest);
        forall t | t in Undisplayed(s.rows) ensures t.id < end.nextId {
          var k :| 0 <= k < |s.rows| && s.rows[k] == t;
        }
    }
  }

  function UndisplayedIds(rows: seq<TokenRow>): set<nat> {
    set t | t in rows && !t.displayed :: t.id
  }

  predicate IdsDistinct(tokens: seq<TokenRow>) {
    forall i, j | 0 <= i < j < |tokens| :: tokens[i].id != tokens[j].id
  }

  lemma ConcatIdsDistinct(a: seq<TokenRow>, b: seq<TokenRow>)
    requires IdsDistinct(a) && IdsDistinct(b)
    requires forall x, y | x in a && y in b :: x.id != y.id
    ensures IdsDistinct(a + b)
  {
    var c := a + b;
    forall i, j | 0 <= i < j < |c| ensures c[i].id != c[j].id {
      if j < |a| {
        assert c[i] == a[i] && c[j] == a[j];
      } else if i >= |a| {
        assert c[i] == b[i - |a|] && c[j] == b[j - |a|];
      } else {
        assert c[i] in a && c[j] in b;
      }
    }
  }

  /** Exactly-once delivery when each `/getTokens` runs as one step: no token
      is delivered twice, and whatever is delivered was pending when the
      sequence began or was stored after it. */
  lemma {:induction false} DeliveriesAreFresh(s: TableState, requests: seq<Request>)
    requires WellFormed(s)
    ensures IdsDistinct(Deliveries(s, requests))
    ensures forall t | t in Deliveries(s, requests) :: t.id in UndisplayedIds(s.rows) || t.id >= s.nextId
    decreases |requests|
  {
    if requests != [] {
      var rest := requests[1..];
      match requests[0]
      case StoreRequest(body) =>
        var s' := AfterStore(s, body);
        StoreKeepsWellFormed(s, body);
        DeliveriesAreFresh(s', rest);
        if Insertable(s, body) {
          forall t | t in Deliveries(s', rest) ensures t.id in UndisplayedIds(s.rows) || t.id >= s.nextId {
            if t.id in UndisplayedIds(s'.rows) {
              var u :| u in s'.rows && !u.displayed && u.id == t.id;
              if u != NewRow(s, body) {
                assert u in s.rows;
              }
            }
          }
        }
      case GetTokensRequest =>
        var selected := Undisplayed(s.rows);
        var s' := AfterClaim(s);
        ClaimKeepsWellFormed(s);
        DeliveriesAreFresh(s', rest);
        SecondClaimReturnsNothing(s);
        var later := Deliveries(s', rest);
        assert UndisplayedIds(s'.rows) == {};
        UndisplayedKeepsOrder(s.rows);
        forall x, y | x in selected && y in later ensures x.id != y.id {
          assert x in s.rows;
        }
        ConcatIdsDistinct(selected, later);
        forall t | t in selected ensures t.id in UndisplayedIds(s.rows) {
        }
    }
  }

  /** No pending token is skipped: one that is undisplayed is delivered exactly
      when a `/getTokens` follows. */
  lemma {:induction false} PendingTokenDelivered(s: TableState, requests: seq<Request>, token: TokenRow)
    requires token in s.rows && !token.displayed
    ensures token in Deliveries(s, requests) <==> GetTokensRequest in requests
    decreases |requests|
  {
    if requests != [] {
      var rest := requests[1..];
      assert requests == [requests[0]] + rest;
      match requests[0]
      case StoreRequest(body) =>
        PendingTokenDelivered(AfterStore(s, body), rest, token);
      case GetTokensRequest =>
        assert token in Undisplayed(s.rows);
    }
  }

  /** Every stored token is delivered: a token accepted by a `/storeToken` in
      the middle of a run is delivered iff some `/getTokens` comes after it. */
  lemma StoredTokenDelivered(s: TableState, before: seq<Request>, body: StoreBody, after: seq<Request>)
    requires WellFormed(s) && Insertable(Run(s, before), body)
    ensures var token := NewRow(Run(s, before), body);
            token in Deliveries(s, before + [StoreRequest(body)] + after) <==> GetTokensRequest in after
  {
    var mid := Run(s, before);
    var token := NewRow(mid, body);
    var tail := [StoreRequest(body)] + after;
    assert before + [StoreRequest(body)] + after == before + tail;
    DeliveriesAppend(s, before, tail);
    assert tail[0] == StoreRequest(body) && tail[1..] == after;
    assert Deliveries(mid, tail) == Deliveries(AfterStore(mid, body), after);
    DeliveredBelowCounter(s, before);
    assert token !in Deliveries(s, before);
    var stored := AfterStore(mid, body);
    assert stored.rows[|mid.rows|] == token;
    PendingTokenDelivered(stored, after, token);
  }

  /** One statement of a request as the database runs it. `/getTokens` number
      `request` is two statements, its SELECT and its UPDATE, and answers what
      its SELECT returned once its UPDATE has finished. */
  datatype Step = StoreStep(body: StoreBody) | SelectStep(request: nat) | UpdateStep(request: nat)

  /** The table and the answers of the `/getTokens` requests in the order their
      UPDATEs finish. */
  datatype Outcome = Outcome(table: TableState, delivered: seq<TokenRow>)

  /** What each request whose SELECT has run but whose UPDATE has not yet run
      will answer: rows that were undisplayed when it was selected. */
  predicate SelectionsPending(selected: map<nat, seq<TokenRow>>) {
    forall q | q in selected :: forall t | t in selected[q] :: !t.displayed
  }

  /** The statements run in the given order from `s`; `selected` holds what each
      request whose SELECT has run but whose UPDATE has not yet run will answer.
      Every answered row was undisplayed when it was selected, the counter never
      goes down, and the key stays well formed. */
  function Interleave(s: TableState, selected: map<nat, seq<TokenRow>>, steps: seq<Step>): (r: Outcome)
    requires SelectionsPending(selected)
    ensures forall t | t in r.delivered :: !t.displayed
    ensures s.nextId <= r.table.nextId
    ensures WellFormed(s) ==> WellFormed(r.table)
    decreases |steps|
  {
    if steps == [] then Outcome(s, [])
    else
      match steps[0]
      case StoreStep(body) => Interleave(AfterStore(s, body), selected, steps[1..])
      case SelectStep(q) => Interleave(s, selected[q := Undisplayed(s.rows)], steps[1..])
      case UpdateStep(q) =>
        var rest := Interleave(AfterClaim(s), selected - {q}, steps[1..]);
        Outcome(rest.table, (if q in selected then selected[q] else []) + rest.delivered)
  }

  /** The statements of each request in turn, nothing interleaved. */
  function InTurn(requests: seq<Request>): seq<Step> {
    if requests == [] then []
    else
      match requests[0]
      case StoreRequest(body) => [StoreStep(body)] + InTurn(requests[1..])
      case GetTokensRequest => [SelectStep(0), UpdateStep(0)] + InTurn(requests[1..])
  }

  /** When no statement of another request runs between a `/getTokens`'s SELECT
      and its UPDATE, the two-statement handler delivers exactly what the
      one-step semantics `Deliveries` delivers, and leaves the same table. */
  lemma {:induction false} InTurnIsDeliveries(s: TableState, requests: seq<Request>)
    ensures Interleave(s, map[], InTurn(requests)) == Outcome(Run(s, requests), Deliveries(s, requests))
    decreases |requests|
  {
    if requests != [] {
      var rest := requests[1..];
      var steps := InTurn(requests);
      match requests[0]
      case StoreRequest(body) =>
        assert steps[0] == StoreStep(body) && steps[1..] == InTurn(rest);
        InTurnIsDeliveries(AfterStore(s, body), rest);
      case GetTokensRequest =>
        var picked := map[0 := Undisplayed(s.rows)];
        assert steps[0] == SelectStep(0) && steps[1..] == [UpdateStep(0)] + InTurn(rest);
        assert steps[1..][1..] == InTurn(rest);
        assert picked - {0} == map[];
        InTurnIsDeliveries(AfterClaim(s), rest);
    }
  }

  /** As written, `/getTokens` is two statements. A `/storeToken` whose INSERT
      lands between this request's SELECT and its UPDATE is not in the answer,
      is marked displayed by the UPDATE, and so is never delivered by any later
      request either. */
  lemma StoreBetweenClaimStepsIsLost(s: TableState, body: StoreBody, later: seq<Request>)
    requires WellFormed(s) && Insertable(s, body)
    ensures var o := Interleave(s, map[], [SelectStep(0), StoreStep(body), UpdateStep(0)]);
            && o.table == AfterClaim(AfterStore(s, body))
            && o.delivered == Undisplayed(s.rows)
            && (forall t | t in o.delivered :: t.id != s.nextId)
            && o.table.rows[|s.rows|] == NewRow(s, body).(displayed := true)
            && (forall t | t in Deliveries(o.table, later) :: t.id != s.nextId)
  {
    var stored := AfterStore(s, body);
    var marked := AfterClaim(stored);
    SelectStoreUpdate(s, body);
    StoreKeepsWellFormed(s, body);
    ClaimKeepsWellFormed(stored);
    DeliveriesAreFresh(marked, later);
    assert UndisplayedIds(marked.rows) == {};
  }

  /** One statement at a time: a SELECT records what its request will answer. */
  lemma SelectThen(s: TableState, selected: map<nat, seq<TokenRow>>, q: nat, rest: seq<Step>)
    requires SelectionsPending(selected)
    ensures Interleave(s, selected, [SelectStep(q)] + rest)
         == Interleave(s, selected[q := Undisplayed(s.rows)], rest)
  {
    assert ([SelectStep(q)] + rest)[1..] == rest;
  }

  /** One statement at a time: an INSERT changes only the table. */
  lemma StoreThen(s: TableState, selected: map<nat, seq<TokenRow>>, body: StoreBody, rest: seq<Step>)
    requires SelectionsPending(selected)
    ensures Interleave(s, selected, [StoreStep(body)] + rest) == Interleave(AfterStore(s, body), selected, rest)
  {
    assert ([StoreStep(body)] + rest)[1..] == rest;
  }

  /** One statement at a time: an UPDATE marks the table and its request answers
      what its SELECT recorded. */
  lemma UpdateThen(s: TableState, selected: map<nat, seq<TokenRow>>, q: nat, rest: seq<Step>)
    requires SelectionsPending(selected) && q in selected
    ensures var later := Interleave(AfterClaim(s), selected - {q}, rest);
            Interleave(s, selected, [UpdateStep(q)] + rest) == Outcome(later.table, selected[q] + later.delivered)
  {
    assert ([UpdateStep(q)] + rest)[1..] == rest;
  }

  /** SELECT, then another request's INSERT, then UPDATE: the answer is what was
      pending before the INSERT, and the table ends as store-then-claim. */
  lemma SelectStoreUpdate(s: TableState, body: StoreBody)
    ensures Interleave(s, map[], [SelectStep(0), StoreStep(body), UpdateStep(0)])
         == Outcome(AfterClaim(AfterStore(s, body)), Undisplayed(s.rows))
  {
    var picked := map[][0 := Undisplayed(s.rows)];
    var stored := AfterStore(s, body);
    assert [SelectStep(0), StoreStep(body), UpdateStep(0)] == [SelectStep(0)] + ([StoreStep(body)] + [UpdateStep(0)]);
    SelectThen(s, map[], 0, [StoreStep(body)] + [UpdateStep(0)]);
    StoreThen(s, picked, body, [UpdateStep(0)]);
    assert [UpdateStep(0)] == [UpdateStep(0)] + [];
    UpdateThen(stored, picked, 0, []);
  }

  /** As written, two `/getTokens` requests whose SELECTs both run before either
      UPDATE both answer every pending row, so the deliveries repeat ids. */
  lemma InterleavedClaimsDeliverTwice(s: TableState, i: nat)
    requires i < |s.rows| && !s.rows[i].displayed
    ensures var d := Interleave(s, map[], [SelectStep(1), SelectStep(2), UpdateStep(1), UpdateStep(2)]).delivered;
            && d == Undisplayed(s.rows) + Undisplayed(s.rows)
            && !IdsDistinct(d)
  {
    var pending := Undisplayed(s.rows);
    var steps := [SelectStep(1), SelectStep(2), UpdateStep(1), UpdateStep(2)];
    var both := map[1 := pending, 2 := pending];
    assert steps[1..] == [SelectStep(2), UpdateStep(1), UpdateStep(2)];
    assert steps[1..][1..] == [UpdateStep(1), UpdateStep(2)];
    assert steps[1..][1..][1..] == [UpdateStep(2)];
    assert [UpdateStep(2)][1..] == [];
    assert map[1 := pending][2 := pending] == both;
    assert both - {1} == map[2 := pending];
    assert map[2 := pending] - {2} == map[];
    var d := Interleave(s, map[], steps).delivered;
    assert d == pending + pending;
    assert s.rows[i] in pending;
    var k :| 0 <= k < |pending| && pending[k] == s.rows[i];
    assert d[k] == d[|pending| + k];
  }
}
