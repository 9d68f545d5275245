/** The two request handlers of the school service over an in-memory model of
    the `school` table: `/register` (app.js:72-102) validates, rejects a
    duplicate (name, address) and inserts; `/listSchools` (app.js:116-136)
    annotates every row with its distance from the reference point and sorts
    by it. The table keeps the schema's constraints (app.js:19-28). */
module Schools {
  import opened Validator

  /** A row of the `school` table (app.js:20-27). */
  datatype School = School(id: nat, name: string, address: string, latitude: Number, longitude: Number)

  /** A row of the listing, after `school.distance = ...` (app.js:126-128). */
  datatype Listed = Listed(school: School, distance: real)

  /** What a handler sends: a plain-text body or a JSON array of rows. */
  datatype Response = Text(status: nat, body: string) | Json(status: nat, schools: seq<Listed>)

  const AlreadyExistsMessage: string := "School already exists."
  const RegisteredMessage: string := "School registered successfully"
  const DatabaseErrorMessage: string := "Database error"
  const EmptyMessage: string := "The database is empty"

  predicate SamePair(a: School, b: School)
  {
    a.name == b.name && a.address == b.address
  }

  /** What every stored row satisfies, since only validated input is inserted. */
  predicate WellFormed(s: School)
  {
    !IsBlank(s.name) && !IsBlank(s.address) && !s.latitude.NaN? && !s.longitude.NaN?
  }

  /** The table's constraints, given the last id AUTOINCREMENT handed out:
      ids are positive, at most lastId and increasing in insertion order
      (app.js:21); no two rows share (name, address) (app.js:26). Hence the
      id is a primary key and the pair is unique, in either order of rows. */
  predicate TableInvariant(rows: seq<School>, lastId: nat)
    ensures TableInvariant(rows, lastId) ==>
      forall i, j :: 0 <= i < |rows| && 0 <= j < |rows| && i != j ==>
        rows[i].id != rows[j].id && !SamePair(rows[i], rows[j])
  {
    (forall i :: 0 <= i < |rows| ==> 1 <= rows[i].id <= lastId) &&
    (forall i, j :: 0 <= i < j < |rows| ==> rows[i].id < rows[j].id) &&
    (forall i, j :: 0 <= i < j < |rows| ==> !SamePair(rows[i], rows[j])) &&
    (forall i :: 0 <= i < |rows| ==> WellFormed(rows[i]))
  }

  /** `SELECT * FROM school WHERE name = ? AND address = ?` through `db.get`:
      the first matching row, if any (app.js:83-86). */
  function FindByIdentity(rows: seq<School>, name: string, address: string): (r: Option<School>)
    ensures r.Some? ==> r.value in rows && r.value.name == name && r.value.address == address
    ensures r.None? <==> forall i :: 0 <= i < |rows| ==> !(rows[i].name == name && rows[i].address == address)
  {
    if rows == [] then None
    else if rows[0].name == name && rows[0].address == address then Some(rows[0])
    else
      var r := FindByIdentity(rows[1..], name, address);
      assert forall i :: 1 <= i < |rows| ==> rows[i] == rows[1..][i - 1];
      r
  }

  /** Inserting a validated row whose (name, address) is not yet present, with
      the next AUTOINCREMENT id, keeps the table's constraints. */
  lemma InsertPreservesInvariant(rows: seq<School>, lastId: nat, row: School)
    requires TableInvariant(rows, lastId)
    requires FindByIdentity(rows, row.name, row.address) == None
    requires WellFormed(row) && row.id == lastId + 1
    ensures TableInvariant(rows + [row], lastId + 1)
    ensures forall i :: 0 <= i < |rows| ==> rows[i].id < row.id
  {
    var table := rows + [row];
    assert forall i :: 0 <= i < |rows| ==> table[i] == rows[i];
    assert table[|rows|] == row;
    assert forall i :: 0 <= i < |rows| ==> !SamePair(rows[i], row);
  }

  /** The response to one registration together with the table after it. */
  datatype Registration = Registration(resp: Response, rows: seq<School>, lastId: nat)

  /** What `/register` does to a table, step by step: validate (app.js:76-79),
      look for the pair (app.js:83-90), insert (app.js:92-98); `dbFault`
      stands for a failure inside the database driver (app.js:99-101). The
      reply is always plain text with status 200, 400 or 500; the table grows
      by one row exactly when the status is 200 and is untouched otherwise. */
  function RegisterStep(rows: seq<School>, lastId: nat, name: JsVal, address: JsVal,
                        latitude: JsVal, longitude: JsVal, dbFault: bool): (r: Registration)
    ensures r.resp.Text? && (r.resp.status == 200 || r.resp.status == 400 || r.resp.status == 500)
    ensures r.resp.status == 200 <==> |r.rows| == |rows| + 1
    ensures r.resp.status != 200 ==> r.rows == rows && r.lastId == lastId
    ensures lastId <= r.lastId <= lastId + 1
  {
    match ValidateInput(name, address, latitude, longitude)
    case Some(message) => Registration(Text(400, message), rows, lastId)
    case None =>
      if dbFault then Registration(Text(500, DatabaseErrorMessage), rows, lastId)
      else if FindByIdentity(rows, name.text, address.text).Some? then
        Registration(Text(400, AlreadyExistsMessage), rows, lastId)
      else
        Registration(Text(200, RegisteredMessage),
                     rows + [School(lastId + 1, name.text, address.text, latitude.num, longitude.num)],
                     lastId + 1)
  }

  /** The four outcomes of a registration. Invalid input: 400 with the
      validator's message. Driver failure: 500. A stored row with the same
      (name, address): 400 "School already exists.". Otherwise 200 and one
      new row carrying the submitted fields and the next id. Only the last
      changes the table. */
  lemma RegisterOutcomes(rows: seq<School>, lastId: nat, name: JsVal, address: JsVal,
                         latitude: JsVal, longitude: JsVal, dbFault: bool)
    ensures var r := RegisterStep(rows, lastId, name, address, latitude, longitude, dbFault);
      && (ValidateInput(name, address, latitude, longitude).Some? ==>
            r == Registration(Text(400, ValidateInput(name, address, latitude, longitude).value), rows, lastId))
      && (ValidateInput(name, address, latitude, longitude) == None && dbFault ==>
            r == Registration(Text(500, DatabaseErrorMessage), rows, lastId))
      && (ValidateInput(name, address, latitude, longitude) == None && !dbFault &&
          (exists i :: 0 <= i < |rows| && rows[i].name == name.text && rows[i].address == address.text) ==>
            r == Registration(Text(400, AlreadyExistsMessage), rows, lastId))
      && (ValidateInput(name, address, latitude, longitude) == None && !dbFault &&
          (forall i :: 0 <= i < |rows| ==> !(rows[i].name == name.text && rows[i].address == address.text)) ==>
            r.resp == Text(200, RegisteredMessage) && r.lastId == lastId + 1 &&
            r.rows == rows + [School(lastId + 1, name.text, address.text, latitude.num, longitude.num)])
  {
  }

  /** Registration keeps the table's constraints, and a row it adds has an
      id larger than every id already stored. */
  lemma RegisterPreservesInvariant(rows: seq<School>, lastId: nat, name: JsVal, address: JsVal,
                                   latitude: JsVal, longitude: JsVal, dbFault: bool)
    requires TableInvariant(rows, lastId)
    ensures var r := RegisterStep(rows, lastId, name, address, latitude, longitude, dbFault);
      TableInvariant(r.rows, r.lastId) &&
      |r.rows| <= |rows| + 1 && r.rows[..|rows|] == rows &&
      (|r.rows| == |rows| + 1 ==> forall i :: 0 <= i < |rows| ==> rows[i].id < r.rows[|rows|].id)
  {
    var r := RegisterStep(rows, lastId, name, address, latitude, longitude, dbFault);
    var error := ValidateInput(name, address, latitude, longitude);
    assert rows[..|rows|] == rows;
    if error.Some? {
      assert r == Registration(Text(400, error.value), rows, lastId);
    } else if dbFault {
      assert r == Registration(Text(500, DatabaseErrorMessage), rows, lastId);
    } else if FindByIdentity(rows, name.text, address.text).Some? {
      assert r == Registration(Text(400, AlreadyExistsMessage), rows, lastId);
    } else {
      var row := School(lastId + 1, name.text, address.text, latitude.num, longitude.num);
      InsertPreservesInvariant(rows, lastId, row);
      assert r.rows == rows + [row] && r.lastId == lastId + 1;
      assert (rows + [row])[..|rows|] == rows;
    }
  }

  /** The listing row for a stored row: `calculateDistance` from the reference
      point is the key function `dist` of the row's coordinates. */
  function Annotated(s: School, dist: (Number, Number) -> real): Listed
  {
    Listed(s, dist(s.latitude, s.longitude))
  }

  /** Every row, annotated, in table order (app.js:126-128). */
  function Annotate(rows: seq<School>, dist: (Number, Number) -> real): (r: seq<Listed>)
    ensures |r| == |rows| && forall i :: 0 <= i < |rows| ==> r[i] == Annotated(rows[i], dist)
  {
    seq(|rows|, i requires 0 <= i < |rows| => Annotated(rows[i], dist))
  }

  /** Distances are non-decreasing along the listing. */
  predicate SortedByDistance(s: seq<Listed>)
  {
    forall p, q :: 0 <= p < q < |s| ==> s[p].distance <= s[q].distance
  }

  /** Ids strictly increase along s, as they do along the table. */
  predicate IdsIncreasing(s: seq<Listed>)
  {
    forall p, q :: 0 <= p < q < |s| ==> s[p].school.id < s[q].school.id
  }

  /** Entries with equal distance appear in increasing id order. */
  predicate TiesInIdOrder(s: seq<Listed>)
  {
    forall p, q :: 0 <= p < q < |s| && s[p].distance == s[q].distance ==> s[p].school.id < s[q].school.id
  }

  /** In a sequence without repeated elements each element occurs once. */
  lemma {:induction false} DistinctOccursOnce(s: seq<Listed>, k: nat)
    requires forall p, q :: 0 <= p < q < |s| ==> s[p] != s[q]
    requires k < |s|
    ensures multiset(s)[s[k]] == 1
  {
    assert s == [s[0]] + s[1..];
    if k == 0 {
      assert s[0] !in s[1..];
    } else {
      DistinctOccursOnce(s[1..], k - 1);
      assert s[1..][k - 1] == s[k];
    }
  }

  /** A listing that is a permutation of the annotated table has one entry
      per row, holds each row exactly once with its own distance, and holds
      nothing else. */
  lemma ListingHasEveryRowOnce(rows: seq<School>, lastId: nat, dist: (Number, Number) -> real, listing: seq<Listed>)
    requires TableInvariant(rows, lastId)
    requires multiset(listing) == multiset(Annotate(rows, dist))
    ensures |listing| == |rows|
    ensures forall i :: 0 <= i < |rows| ==> multiset(listing)[Annotated(rows[i], dist)] == 1
    ensures forall l :: l in listing ==> l.school in rows && l.distance == dist(l.school.latitude, l.school.longitude)
  {
    var full := Annotate(rows, dist);
    assert |listing| == |multiset(listing)| == |multiset(full)| == |full|;
    forall i | 0 <= i < |rows|
      ensures multiset(listing)[Annotated(rows[i], dist)] == 1
    {
      assert forall p, q :: 0 <= p < q < |full| ==> full[p].school.id < full[q].school.id;
      DistinctOccursOnce(full, i);
    }
    forall l | l in listing
      ensures l.school in rows && l.distance == dist(l.school.latitude, l.school.longitude)
    {
      assert l in multiset(full);
      var i :| 0 <= i < |full| && full[i] == l;
    }
  }

  /** `schools.sort((a, b) => a.distance - b.distance)` (app.js:130), as an
      in-place insertion sort on the distance key. Like `Array.prototype.sort`
      it is stable: when the ids increase along the input, as they do along
      the table, entries with equal distance keep that order. */
  method SortByDistance(a: array<Listed>)
    modifies a
    ensures SortedByDistance(a[..])
    ensures multiset(a[..]) == old(multiset(a[..]))
    ensures IdsIncreasing(old(a[..])) ==> TiesInIdOrder(a[..])
  {
    ghost var input := a[..];
    ghost var track := IdsIncreasing(input);
    var i := 0;
    while i < a.Length
      invariant 0 <= i <= a.Length
      invariant forall p, q :: 0 <= p < q < i ==> a[p].distance <= a[q].distance
      invariant multiset(a[..]) == multiset(input)
      invariant forall k :: i <= k < a.Length ==> a[k] == input[k]
      invariant track ==> forall p, q :: 0 <= p < q < i && a[p].distance == a[q].distance ==>
        a[p].school.id < a[q].school.id
      invariant track ==> forall p, m :: 0 <= p < i <= m < a.Length ==> a[p].school.id < a[m].school.id
    {
      InsertIntoSorted(a, i, track);
      i := i + 1;
    }
  }

  /** One pass of the insertion sort: moves a[i] down into the sorted prefix
      a[..i], so that a[..i + 1] is sorted. It passes only entries with a
      strictly larger distance, so with `track` (ids below a[i] in the prefix,
      above it after) equal distances stay in id order. */
  method InsertIntoSorted(a: array<Listed>, i: nat, ghost track: bool)
    requires i < a.Length
    requires forall p, q :: 0 <= p < q < i ==> a[p].distance <= a[q].distance
    requires track ==> forall p, q :: 0 <= p < q < i && a[p].distance == a[q].distance ==>
      a[p].school.id < a[q].school.id
    requires track ==> forall p, m :: 0 <= p < i <= m < a.Length ==> a[p].school.id < a[m].school.id
    requires track ==> forall m :: i < m < a.Length ==> a[i].school.id < a[m].school.id
    modifies a
    ensures forall p, q :: 0 <= p < q <= i ==> a[p].distance <= a[q].distance
    ensures multiset(a[..]) == old(multiset(a[..]))
    ensures forall k :: i < k < a.Length ==> a[k] == old(a[k])
    ensures track ==> forall p, q :: 0 <= p < q <= i && a[p].distance == a[q].distance ==>
      a[p].school.id < a[q].school.id
    ensures track ==> forall p, m :: 0 <= p <= i < m < a.Length ==> a[p].school.id < a[m].school.id
  {
    ghost var x := a[i];
    var j := i;
    while j > 0 && a[j - 1].distance > a[j].distance
      invariant Sinking(a[..], i, j, x, track)
      invariant multiset(a[..]) == old(multiset(a[..]))
      invariant forall k :: i < k < a.Length ==> a[k] == old(a[k])
      decreases j
    {
      SinkOnce(a, i, j, x, track);
      j := j - 1;
    }
    SinkDone(a[..], i, j, x, track);
  }

  /** An insertion pass that stops, at the front or behind an entry that is
      not farther than x, leaves s[..i + 1] sorted and, with `track`, ties in
      id order and the prefix's ids below the rest. */
  lemma SinkDone(s: seq<Listed>, i: nat, j: nat, x: Listed, track: bool)
    requires Sinking(s, i, j, x, track)
    requires j == 0 || s[j - 1].distance <= s[j].distance
    ensures forall p, q :: 0 <= p < q <= i ==> s[p].distance <= s[q].distance
    ensures track ==> forall p, q :: 0 <= p < q <= i && s[p].distance == s[q].distance ==>
      s[p].school.id < s[q].school.id
    ensures track ==> forall p, m :: 0 <= p <= i < m < |s| ==> s[p].school.id < s[m].school.id
  {
  }

  /** One step of an insertion pass: x moves from j to j - 1. */
  method SinkOnce(a: array<Listed>, i: nat, j: nat, ghost x: Listed, ghost track: bool)
    requires Sinking(a[..], i, j, x, track)
    requires 0 < j && a[j - 1].distance > a[j].distance
    modifies a
    ensures Sinking(a[..], i, j - 1, x, track)
    ensures multiset(a[..]) == old(multiset(a[..]))
    ensures forall k :: i < k < a.Length ==> a[k] == old(a[k])
  {
    ghost var before := a[..];
    SinkStep(before, i, j, x, track);
    Swap(a, j - 1, j);
    assert a[..] == before[j - 1 := before[j]][j := before[j - 1]];
  }

  /** The state of an insertion pass over s[..i + 1] while the inserted entry
      x sits at j: the other entries are sorted (and, with `track`, ties among
      them are in id order), every entry after x is strictly farther than x,
      and with `track` x has the largest id of the prefix and every id in the
      prefix is below every id after it. */
  ghost predicate Sinking(s: seq<Listed>, i: nat, j: nat, x: Listed, track: bool)
  {
    j <= i < |s| && s[j] == x &&
    (forall p, q :: 0 <= p < q <= i && p != j && q != j ==> s[p].distance <= s[q].distance) &&
    (forall q :: j < q <= i ==> x.distance < s[q].distance) &&
    (track ==>
      (forall p, q :: 0 <= p < q <= i && p != j && q != j && s[p].distance == s[q].distance ==>
         s[p].school.id < s[q].school.id) &&
      (forall k :: 0 <= k <= i && k != j ==> s[k].school.id < x.school.id) &&
      (forall p, m :: 0 <= p <= i < m < |s| ==> s[p].school.id < s[m].school.id))
  }

  /** Moving x one place down past a strictly farther entry keeps the state
      of the pass. */
  lemma SinkStep(s: seq<Listed>, i: nat, j: nat, x: Listed, track: bool)
    requires Sinking(s, i, j, x, track)
    requires 0 < j && s[j - 1].distance > s[j].distance
    ensures Sinking(s[j - 1 := s[j]][j := s[j - 1]], i, j - 1, x, track)
  {
  }

  /** Exchanges two elements of the array. */
  method Swap(a: array<Listed>, i: nat, j: nat)
    requires i < j < a.Length
    modifies a
    ensures a[..] == old(a[..])[i := old(a[j])][j := old(a[i])]
    ensures multiset(a[..]) == old(multiset(a[..]))
  {
    a[i], a[j] := a[j], a[i];
  }

  /** The module-level database handle (app.js:10) reduced to the table it
      holds: the rows in insertion order and the last AUTOINCREMENT id. */
  class SchoolStore {
    var rows: seq<School>
    var lastId: nat

    ghost predicate Valid()
      reads this
    {
      TableInvariant(rows, lastId)
    }

    /** A freshly created `school` table (app.js:19-28). */
    constructor ()
      ensures Valid() && rows == [] && lastId == 0
    {
      rows := [];
      lastId := 0;
    }

    /** The `/register` handler as one atomic step (app.js:72-102). */
    method Register(name: JsVal, address: JsVal, latitude: JsVal, longitude: JsVal, dbFault: bool)
      returns (resp: Response)
      requires Valid()
      modifies this
      ensures Valid()
      ensures Registration(resp, rows, lastId) ==
              RegisterStep(old(rows), old(lastId), name, address, latitude, longitude, dbFault)
    {
      var error := ValidateInput(name, address, latitude, longitude);
      if error.Some? {
        return Text(400, error.value);
      }
      if dbFault {
        return Text(500, DatabaseErrorMessage);
      }
      var existing := FindByIdentity(rows, name.text, address.text);
      if existing.Some? {
        return Text(400, AlreadyExistsMessage);
      }
      Insert(name.text, address.text, latitude.num, longitude.num);
      resp := Text(200, RegisteredMessage);
    }

    /** `INSERT INTO school (name, address, latitude, longitude)` through
        `db.run` (app.js:92-97): the row gets the next AUTOINCREMENT id. */
    method Insert(name: string, address: string, latitude: Number, longitude: Number)
      requires Valid()
      requires FindByIdentity(rows, name, address) == None
      requires !IsBlank(name) && !IsBlank(address) && !latitude.NaN? && !longitude.NaN?
      modifies this
      ensures Valid()
      ensures lastId == old(lastId) + 1
      ensures rows == old(rows) + [School(lastId, name, address, latitude, longitude)]
    {
      var row := School(lastId + 1, name, address, latitude, longitude);
      InsertPreservesInvariant(rows, lastId, row);
      rows := rows + [row];
      lastId := lastId + 1;
    }

    /** The `/listSchools` handler: `dist` stands for `calculateDistance` from
        the fixed reference point (app.js:106-107, 127); `dbFault` for a
        failure inside the database driver. */
    method List(dist: (Number, Number) -> real, dbFault: bool) returns (resp: Response)
      requires Valid()
      ensures dbFault ==> resp == Text(500, DatabaseErrorMessage)
      ensures !dbFault && rows == [] ==> resp == Text(200, EmptyMessage)
      ensures !dbFault && rows != [] ==>
        resp.Json? && resp.status == 200 &&
        SortedByDistance(resp.schools) && multiset(resp.schools) == multiset(Annotate(rows, dist))
      ensures !dbFault && rows != [] ==>
        |resp.schools| == |rows| &&
        (forall i :: 0 <= i < |rows| ==> multiset(resp.schools)[Annotated(rows[i], dist)] == 1) &&
        (forall l :: l in resp.schools ==>
          l.school in rows && l.distance == dist(l.school.latitude, l.school.longitude))
      ensures !dbFault && rows != [] ==> TiesInIdOrder(resp.schools)
    {
      if dbFault {
        return Text(500, DatabaseErrorMessage);
      }
      var schools := rows;
      if |schools| == 0 {
        return Text(200, EmptyMessage);
      }
      var a := new Listed[|schools|];
      for i := 0 to |schools|
        invariant forall k :: 0 <= k < i ==> a[k] == Annotated(schools[k], dist)
      {
        a[i] := Annotated(schools[i], dist);
      }
      assert a[..] == Annotate(schools, dist);
      assert IdsIncreasing(a[..]);
      SortByDistance(a);
      ListingHasEveryRowOnce(rows, lastId, dist, a[..]);
      resp := Json(200, a[..]);
    }
  }

  /** A valid registration on a new table stores it as row 1. */
  lemma RegisterOnEmptyTable(name: string, address: string, lat: real, lon: real)
    requires !IsBlank(name) && !IsBlank(address)
    ensures RegisterStep([], 0, JsString(name), JsString(address), JsNumber(Finite(lat)), JsNumber(Finite(lon)), false)
      == Registration(Text(200, RegisteredMessage), [School(1, name, address, Finite(lat), Finite(lon))], 1)
  {
  }

  /** Registering the same (name, address) twice on a new table: the first
      call succeeds, the second is refused, one row is stored. */
  lemma RegisterTwice(name: string, address: string, lat: real, lon: real)
    requires !IsBlank(name) && !IsBlank(address)
    ensures var n, a, la, lo := JsString(name), JsString(address), JsNumber(Finite(lat)), JsNumber(Finite(lon));
      var first := RegisterStep([], 0, n, a, la, lo, false);
      var second := RegisterStep(first.rows, first.lastId, n, a, la, lo, false);
      first.resp == Text(200, RegisteredMessage) && second.resp == Text(400, AlreadyExistsMessage) &&
      second.rows == [School(1, name, address, Finite(lat), Finite(lon))]
  {
  }

  /** Registering one school on a new table and listing: exactly that row,
      with id 1, the submitted fields and its distance. */
  method RegisterThenList(name: string, address: string, lat: real, lon: real, dist: (Number, Number) -> real)
    returns (resp: Response)
    requires !IsBlank(name) && !IsBlank(address)
    ensures resp == Json(200, [Listed(School(1, name, address, Finite(lat), Finite(lon)), dist(Finite(lat), Finite(lon)))])
  {
    var row := School(1, name, address, Finite(lat), Finite(lon));
    RegisterOnEmptyTable(name, address, lat, lon);
    var store := new SchoolStore();
    var registered := store.Register(JsString(name), JsString(address), JsNumber(Finite(lat)), JsNumber(Finite(lon)), false);
    assert store.rows == [row];
    resp := store.List(dist, false);
    var expected := Annotated(row, dist);
    assert Annotate([row], dist) == [expected];
    SingletonPermutation(resp.schools, expected);
  }

  /** The only permutation of a one-element sequence is itself. */
  lemma SingletonPermutation(s: seq<Listed>, x: Listed)
    requires multiset(s) == multiset([x])
    ensures s == [x]
  {
  }
}
