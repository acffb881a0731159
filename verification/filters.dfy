/** The client-side filters applied to decoded CSV rows: ratings by `ID`,
    players by organisation, contracts by team and player, and the
    case-insensitive name search of `findPlayer`. Each is one or two
    `Array.prototype.filter` calls, so each keeps the surviving rows in their
    original order. */
module Filters {
  import opened Wrappers
  import opened Text
  import opened Seqs
  import opened Csv

  /** `row[key]`, with `None` for JavaScript's `undefined`. */
  function Field(row: Row, key: string): (v: Option<Scalar>)
    ensures v.Some? <==> key in row
  {
    if key in row then Some(row[key]) else None
  }

  /** `row[key] === x` for a JavaScript number `x`: only a cell that was
      coerced to a number can be strictly equal to one. */
  predicate HasNumber(row: Row, key: string, x: real) {
    key in row && row[key].Number? && row[key].value == x
  }

  // ---------------------------------------------------------------------
  // Ratings (getRatings)
  // ---------------------------------------------------------------------

  /** `idSet.has(r["ID"])`. */
  predicate IdListed(row: Row, ids: seq<real>) {
    "ID" in row && row["ID"].Number? && row["ID"].value in ids
  }

  /** The `player_ids` filter of `getRatings`: rows whose `ID` is one of the
      identifiers, or every row when no identifier is given. */
  function RatingsFilter(rows: seq<Row>, ids: seq<real>): (r: seq<Row>)
    ensures |ids| == 0 ==> r == rows
    ensures forall k :: 0 <= k < |r| ==> |ids| == 0 || IdListed(r[k], ids)
  {
    if |ids| > 0 then Filter(rows, row => IdListed(row, ids))
    else
      FilterAll(rows, row => true);
      rows
  }

  /** The ratings filter keeps exactly the rows with a listed `ID`, each as
      often as it occurs, in their original order. */
  lemma {:induction false} RatingsFilterSpec(rows: seq<Row>, ids: seq<real>)
    requires |ids| > 0
    ensures IsSubseq(RatingsFilter(rows, ids), rows)
    ensures forall row :: row in RatingsFilter(rows, ids) <==> row in rows && IdListed(row, ids)
    ensures forall row :: multiset(RatingsFilter(rows, ids))[row]
                          == if IdListed(row, ids) then multiset(rows)[row] else 0
  {
    FilterIsSubseq(rows, row => IdListed(row, ids));
    FilterMultiset(rows, row => IdListed(row, ids));
  }

  /** A decoded line whose `ID` cell holds the digits of a listed
      identifier survives the ratings filter: the cell is coerced to that
      number before the comparison. */
  lemma DecodedIdListed(headers: seq<string>, values: seq<string>, j: nat, n: nat, ids: seq<real>)
    requires IsLast(headers, j) && headers[j] == "ID"
    requires j < |values| && values[j] == Decimal(n)
    requires n as real in ids
    ensures IdListed(MakeRow(headers, values), ids)
  {
    DecimalCoerces(n);
  }

  // ---------------------------------------------------------------------
  // Players (getPlayers, findPlayer)
  // ---------------------------------------------------------------------

  /** `p["Parent Team ID"] === org_id || p["Team ID"] === org_id`. */
  predicate InOrg(row: Row, org: real) {
    HasNumber(row, "Parent Team ID", org) || HasNumber(row, "Team ID", org)
  }

  /** The `org_id` filter of `getPlayers`; no filter when `org_id` is
      undefined. */
  function PlayersByOrg(rows: seq<Row>, org: Option<real>): (r: seq<Row>)
    ensures org.None? ==> r == rows
    ensures forall k :: 0 <= k < |r| ==> org.None? || InOrg(r[k], org.value)
  {
    match org
    case None => rows
    case Some(o) => Filter(rows, row => InOrg(row, o))
  }

  /** A player is kept exactly when its parent organisation or its own team
      is the requested one, each as often as it occurs; the kept players
      stay in order. */
  lemma {:induction false} PlayersByOrgSpec(rows: seq<Row>, org: real)
    ensures IsSubseq(PlayersByOrg(rows, Some(org)), rows)
    ensures forall row :: row in PlayersByOrg(rows, Some(org)) <==> row in rows && InOrg(row, org)
    ensures forall row :: multiset(PlayersByOrg(rows, Some(org)))[row]
                          == if InOrg(row, org) then multiset(rows)[row] else 0
  {
    FilterIsSubseq(rows, row => InOrg(row, org));
    FilterMultiset(rows, row => InOrg(row, org));
  }

  /** `String(value)` for a cell: `"undefined"` for a missing one, the text
      of a string cell, and the source digits of a numeric one. */
  function Display(v: Option<Scalar>): (s: string)
    ensures v.Some? && v.value.Text? ==> s == v.value.text
    ensures v.None? ==> s == "undefined"
  {
    match v
    case None => "undefined"
    case Some(Text(t)) => t
    case Some(Number(_, source)) => source
  }

  /** The test `findPlayer` applies with the already lower-cased query. */
  predicate NameMatches(row: Row, query: string) {
    var first := Lower(Display(Field(row, "First Name")));
    var last := Lower(Display(Field(row, "Last Name")));
    Contains(first, query) || Contains(last, query) || Contains(first + " " + last, query)
  }

  /** `findPlayer`: rows whose lower-cased first name, last name or
      "first last" contains the lower-cased query. */
  function FindPlayer(rows: seq<Row>, name: string): (r: seq<Row>)
    ensures |r| <= |rows|
    ensures forall k :: 0 <= k < |r| ==> NameMatches(r[k], Lower(name))
  {
    Filter(rows, row => NameMatches(row, Lower(name)))
  }

  /** The name search keeps exactly the rows where the query occurs in the
      first name, the last name or the full name, each as often as it
      occurs, in their original order. */
  lemma {:induction false} FindPlayerSpec(rows: seq<Row>, name: string)
    ensures IsSubseq(FindPlayer(rows, name), rows)
    ensures forall row :: row in FindPlayer(rows, name) <==> row in rows && NameMatches(row, Lower(name))
    ensures forall row :: multiset(FindPlayer(rows, name))[row]
                          == if NameMatches(row, Lower(name)) then multiset(rows)[row] else 0
  {
    FilterIsSubseq(rows, row => NameMatches(row, Lower(name)));
    FilterMultiset(rows, row => NameMatches(row, Lower(name)));
  }

  /** The search ignores the case of the query. */
  lemma FindPlayerIgnoresCase(rows: seq<Row>, name: string)
    ensures FindPlayer(rows, Lower(name)) == FindPlayer(rows, name)
  {
    assert Lower(Lower(name)) == Lower(name);
  }

  /** The empty query matches every player. */
  lemma FindPlayerEmpty(rows: seq<Row>)
    ensures FindPlayer(rows, "") == rows
  {
    FilterAll(rows, row => NameMatches(row, Lower("")));
  }

  /** A player whose full name is the query, in any case, is found. */
  lemma FullNameFound(row: Row, first: string, last: string)
    requires Field(row, "First Name") == Some(Text(first))
    requires Field(row, "Last Name") == Some(Text(last))
    ensures NameMatches(row, Lower(first + " " + last))
  {
    var full := Lower(first) + " " + Lower(last);
    assert Lower(first + " " + last) == full;
    assert StartsWith(full, full);
  }

  // ---------------------------------------------------------------------
  // Contracts (getContracts)
  // ---------------------------------------------------------------------

  /** One optional numeric criterion of `getContracts`: an undefined
      criterion matches every row. */
  predicate Matches(row: Row, key: string, want: Option<real>) {
    want.None? || HasNumber(row, key, want.value)
  }

  /** The two filters of `getContracts`, applied in turn: by
      `contract_team_id` when `team_id` is given, then by `player_id` when
      `player_id` is given. */
  function ContractsFilter(rows: seq<Row>, team: Option<real>, player: Option<real>): (r: seq<Row>)
    ensures team.None? && player.None? ==> r == rows
    ensures forall k :: 0 <= k < |r| ==>
              Matches(r[k], "contract_team_id", team) && Matches(r[k], "player_id", player)
  {
    var byTeam := if team.Some? then Filter(rows, TeamIs(team.value)) else rows;
    if player.Some? then
      FilterMultiset(byTeam, PlayerIs(player.value));
      Filter(byTeam, PlayerIs(player.value))
    else byTeam
  }

  /** `c => c.contract_team_id === team_id`. */
  function TeamIs(team: real): Row -> bool {
    c => HasNumber(c, "contract_team_id", team)
  }

  /** `c => c.player_id === player_id`. */
  function PlayerIs(player: real): Row -> bool {
    c => HasNumber(c, "player_id", player)
  }

  /** The two passes agree with one pass that tests both criteria, so the
      result is the order-preserving selection of the contracts meeting both. */
  lemma {:induction false} ContractsOnePass(rows: seq<Row>, team: Option<real>, player: Option<real>)
    ensures ContractsFilter(rows, team, player)
            == Filter(rows, c => Matches(c, "contract_team_id", team) && Matches(c, "player_id", player))
    ensures IsSubseq(ContractsFilter(rows, team, player), rows)
  {
    var both := c => Matches(c, "contract_team_id", team) && Matches(c, "player_id", player);
    if team.Some? && player.Some? {
      FilterFilter(rows, TeamIs(team.value), PlayerIs(player.value), both);
    } else if team.Some? {
      FilterSame(rows, TeamIs(team.value), both);
    } else if player.Some? {
      FilterSame(rows, PlayerIs(player.value), both);
    } else {
      FilterAll(rows, both);
    }
    FilterIsSubseq(rows, both);
  }
}
