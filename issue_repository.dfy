/** The `issues` table and the owner-scoped statements the issue repository
    runs against it. Every lookup filters on both the row id and the owner. */
module IssueRepo {
  import opened Wrappers
  import opened Entities
  import opened Errors

  /** The WHERE clause `id = ? AND userId = ?`. */
  predicate Owned(r: Issue, id: nat, userId: int) {
    r.id == id && r.userId == userId
  }

  predicate IdsUnique(rows: seq<Issue>) {
    forall i, j :: 0 <= i < j < |rows| ==> rows[i].id != rows[j].id
  }

  /** Position of the first row matching `(id, userId)`, or -1. */
  function IndexOf(rows: seq<Issue>, id: nat, userId: int): (k: int)
    ensures -1 <= k < |rows|
    ensures k >= 0 ==> Owned(rows[k], id, userId)
    ensures k >= 0 ==> forall j :: 0 <= j < k ==> !Owned(rows[j], id, userId)
    ensures k == -1 ==> forall j :: 0 <= j < |rows| ==> !Owned(rows[j], id, userId)
  {
    if rows == [] then -1
    else if Owned(rows[0], id, userId) then 0
    else
      var k := IndexOf(rows[1..], id, userId);
      if k == -1 then -1 else k + 1
  }

  /** With unique ids, a matching row is the one `IndexOf` finds. */
  lemma OnlyMatch(rows: seq<Issue>, id: nat, userId: int, j: int)
    requires IdsUnique(rows)
    requires 0 <= j < |rows| && Owned(rows[j], id, userId)
    ensures IndexOf(rows, id, userId) == j
  {
  }

  /** The WHERE clause of `findAll`: the owner, and the type when one is
      given (an empty type string is no filter). */
  predicate Selected(r: Issue, userId: int, issueType: Field) {
    r.userId == userId && (Truthy(issueType) ==> r.issueType == issueType.value)
  }

  function Select(rows: seq<Issue>, userId: int, issueType: Field): (r: seq<Issue>)
    ensures forall x :: multiset(r)[x] == if Selected(x, userId, issueType) then multiset(rows)[x] else 0
  {
    if rows == [] then []
    else
      var rest := Select(rows[1..], userId, issueType);
      assert rows == [rows[0]] + rows[1..];
      if Selected(rows[0], userId, issueType) then [rows[0]] + rest else rest
  }

  /** `ORDER BY createdAt DESC`. */
  predicate NewestFirst(s: seq<Issue>) {
    forall i, j :: 0 <= i < j < |s| ==> s[i].createdAt >= s[j].createdAt
  }

  /** Putting a row in front of a newest-first list that starts no later
      keeps it newest first. */
  lemma ConsNewestFirst(a: Issue, s: seq<Issue>)
    requires NewestFirst(s)
    requires s == [] || a.createdAt >= s[0].createdAt
    ensures NewestFirst([a] + s)
  {
    forall i, j | 0 <= i < j < |[a] + s|
      ensures ([a] + s)[i].createdAt >= ([a] + s)[j].createdAt
    {
      if i == 0 && j > 1 {
        assert s[0].createdAt >= s[j - 1].createdAt;
      }
    }
  }

  function InsertNewestFirst(x: Issue, s: seq<Issue>): (r: seq<Issue>)
    requires NewestFirst(s)
    ensures NewestFirst(r)
    ensures multiset(r) == multiset(s) + multiset{x}
    ensures r[0] == x || (s != [] && r[0] == s[0])
  {
    if s == [] || x.createdAt >= s[0].createdAt then
      ConsNewestFirst(x, s);
      [x] + s
    else
      assert s == [s[0]] + s[1..];
      var rest := InsertNewestFirst(x, s[1..]);
      ConsNewestFirst(s[0], rest);
      [s[0]] + rest
  }

  /** The rows in creation order, newest first; rows created at the same
      instant come in an order SQL leaves open, and this is one of them. */
  function SortNewestFirst(s: seq<Issue>): (r: seq<Issue>)
    ensures NewestFirst(r)
    ensures multiset(r) == multiset(s)
  {
    if s == [] then []
    else
      assert s == [s[0]] + s[1..];
      InsertNewestFirst(s[0], SortNewestFirst(s[1..]))
  }

  /** The columns `update` writes: each given (truthy) field replaces the
      stored one, every other field keeps its stored value, and the row gets
      a fresh `updatedAt`. */
  function MergeIssue(existing: Issue, body: IssueBody, now: int): (r: Issue)
    ensures r.id == existing.id && r.userId == existing.userId && r.createdAt == existing.createdAt
    ensures r.updatedAt == now
  {
    existing.(
      issueType := OrElse(body.issueType, existing.issueType),
      title := OrElse(body.title, existing.title),
      description := OrElse(body.description, existing.description),
      priority := OrElse(body.priority, existing.priority),
      status := OrElse(body.status, existing.status),
      updatedAt := now)
  }

  /** A stored field that is set stays set: an empty string in the body
      leaves the stored value in place. */
  lemma MergeCannotClear(existing: Issue, body: IssueBody, now: int)
    ensures existing.issueType != "" ==> MergeIssue(existing, body, now).issueType != ""
    ensures existing.title != "" ==> MergeIssue(existing, body, now).title != ""
    ensures existing.description != "" ==> MergeIssue(existing, body, now).description != ""
    ensures existing.priority != "" ==> MergeIssue(existing, body, now).priority != ""
    ensures existing.status != "" ==> MergeIssue(existing, body, now).status != ""
    ensures body.title == Some("") ==> MergeIssue(existing, body, now).title == existing.title
  {
  }

  /** Applying the same partial update twice stores the same fields as
      applying it once; only `updatedAt` moves. */
  lemma MergeIdempotent(existing: Issue, body: IssueBody, t1: int, t2: int)
    ensures MergeIssue(MergeIssue(existing, body, t1), body, t2) == MergeIssue(existing, body, t1).(updatedAt := t2)
  {
  }

  /** An update with no truthy field only refreshes `updatedAt`. */
  lemma EmptyUpdateOnlyTouches(existing: Issue, body: IssueBody, now: int)
    requires !Truthy(body.issueType) && !Truthy(body.title) && !Truthy(body.description)
    requires !Truthy(body.priority) && !Truthy(body.status)
    ensures MergeIssue(existing, body, now) == existing.(updatedAt := now)
  {
  }

  /** `DELETE ... WHERE id = ? AND userId = ?`: every other row stays, in
      order. */
  function Without(rows: seq<Issue>, id: nat, userId: int): (r: seq<Issue>)
    ensures forall x :: x in r <==> x in rows && !Owned(x, id, userId)
    ensures |r| <= |rows|
  {
    if rows == [] then []
    else
      var rest := Without(rows[1..], id, userId);
      assert forall x :: x in rows <==> x == rows[0] || x in rows[1..];
      if Owned(rows[0], id, userId) then rest else [rows[0]] + rest
  }

  /** Deleting rows keeps the remaining ids unique. */
  lemma {:induction false} WithoutKeepsIdsUnique(rows: seq<Issue>, id: nat, userId: int)
    requires IdsUnique(rows)
    ensures IdsUnique(Without(rows, id, userId))
  {
    if rows != [] {
      WithoutKeepsIdsUnique(rows[1..], id, userId);
      var rest := Without(rows[1..], id, userId);
      if !Owned(rows[0], id, userId) {
        forall x | x in rest
          ensures x.id != rows[0].id
        {
          var j :| 0 <= j < |rows[1..]| && rows[1..][j] == x;
          assert rows[j + 1] == x;
        }
      }
    }
  }

  /** Deleting a pair no row matches changes nothing. */
  lemma {:induction false} WithoutNoMatch(rows: seq<Issue>, id: nat, userId: int)
    requires IndexOf(rows, id, userId) == -1
    ensures Without(rows, id, userId) == rows
  {
    if rows != [] {
      WithoutNoMatch(rows[1..], id, userId);
    }
  }

  /** With unique ids, deleting an existing `(id, userId)` removes exactly
      one row. */
  lemma {:induction false} WithoutRemovesOne(rows: seq<Issue>, id: nat, userId: int)
    requires IdsUnique(rows)
    requires IndexOf(rows, id, userId) >= 0
    ensures |Without(rows, id, userId)| == |rows| - 1
  {
    if !Owned(rows[0], id, userId) {
      WithoutRemovesOne(rows[1..], id, userId);
    } else {
      assert IndexOf(rows[1..], id, userId) == -1 by {
        forall j | 0 <= j < |rows[1..]|
          ensures !Owned(rows[1..][j], id, userId)
        {
          assert rows[1..][j] == rows[j + 1];
        }
      }
      WithoutNoMatch(rows[1..], id, userId);
    }
  }

  class IssueRepository {
    var rows: seq<Issue>
    /** The table's AUTO_INCREMENT counter. */
    var nextId: nat

    ghost predicate Valid()
      reads this
    {
      && 1 <= nextId
      && IdsUnique(rows)
      && (forall x :: x in rows ==> 1 <= x.id < nextId)
      && (forall x :: x in rows ==> x.priority != "" && x.status != "")
    }

    constructor()
      ensures Valid() && rows == [] && nextId == 1
    {
      rows := [];
      nextId := 1;
    }

    /** `findAll(userId, type)`: exactly the caller's rows (of that type, when
        one is given), newest first. */
    function FindAll(userId: int, issueType: Field): (r: seq<Issue>)
      reads this
      ensures NewestFirst(r)
      ensures forall x :: multiset(r)[x] == if Selected(x, userId, issueType) then multiset(rows)[x] else 0
    {
      SortNewestFirst(Select(rows, userId, issueType))
    }

    /** `findById(id, userId)`: the row with that id if the caller owns it;
        another owner's row is indistinguishable from a missing one. */
    function FindById(id: nat, userId: int): (r: Option<Issue>)
      reads this
      ensures r.Some? ==> r.value in rows && r.value.id == id && r.value.userId == userId
      ensures r.None? <==> forall j :: 0 <= j < |rows| ==> !Owned(rows[j], id, userId)
    {
      var k := IndexOf(rows, id, userId);
      if k == -1 then None else Some(rows[k])
    }

    /** `create`: inserts a row with the next id, `'medium'` and `'open'` in
        place of an absent or empty priority and status, and both timestamps
        set to the current instant; then re-reads the row. */
    method Create(data: NewIssue, now: int) returns (issue: Issue)
      requires Valid()
      modifies this
      ensures Valid()
      ensures issue == Issue(old(nextId), data.userId, data.issueType, data.title, data.description,
                             OrElse(data.priority, DefaultPriority), OrElse(data.status, DefaultStatus), now, now)
      ensures rows == old(rows) + [issue] && nextId == old(nextId) + 1
      ensures FindById(issue.id, data.userId) == Some(issue)
    {
      var inserted := Issue(nextId, data.userId, data.issueType, data.title, data.description,
                            OrElse(data.priority, DefaultPriority), OrElse(data.status, DefaultStatus), now, now);
      rows := rows + [inserted];
      nextId := nextId + 1;
      OnlyMatch(rows, inserted.id, data.userId, |rows| - 1);
      var stored := FindById(inserted.id, data.userId);
      issue := stored.value;
    }

    /** `update`: reads the owner's row, writes the merged columns back, and
        re-reads it. A missing or foreign row is an error and changes
        nothing. */
    method Update(id: nat, userId: int, body: IssueBody, now: int) returns (r: Result<Issue, Error>)
      requires Valid()
      modifies this
      ensures Valid() && nextId == old(nextId)
      ensures old(FindById(id, userId)).None? ==> r == Failure(PlainError("Issue not found")) && rows == old(rows)
      ensures old(FindById(id, userId)).Some? ==>
                var k := IndexOf(old(rows), id, userId);
                && r == Success(MergeIssue(old(rows)[k], body, now))
                && rows == old(rows)[k := r.value]
                && FindById(id, userId) == Some(r.value)
    {
      var existing := FindById(id, userId);
      if existing.None? {
        return Failure(PlainError("Issue not found"));
      }
      var k := IndexOf(rows, id, userId);
      rows := rows[k := MergeIssue(existing.value, body, now)];
      OnlyMatch(rows, id, userId, k);
      var updated := FindById(id, userId);
      r := Success(updated.value);
    }

    /** `delete`: removes the caller's row with that id, reporting whether
        one was there; rows of other owners are untouched. */
    method Delete(id: nat, userId: int) returns (deleted: bool)
      requires Valid()
      modifies this
      ensures Valid() && nextId == old(nextId)
      ensures deleted <==> old(FindById(id, userId)).Some?
      ensures rows == Without(old(rows), id, userId)
      ensures deleted ==> |rows| == |old(rows)| - 1
      ensures FindById(id, userId).None?
    {
      deleted := IndexOf(rows, id, userId) >= 0;
      if deleted {
        WithoutRemovesOne(rows, id, userId);
      } else {
        WithoutNoMatch(rows, id, userId);
      }
      WithoutKeepsIdsUnique(rows, id, userId);
      rows := Without(rows, id, userId);
    }
  }
}
