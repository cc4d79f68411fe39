/**
 * Who gets attached to a revision as reviewer or author: the rejection chain of
 * `addRevisionReviewer`, its batch form `addRevisionReviewers`, the reviewers carried
 * forward to a new revision by `updateRevise`, the clean-up of `removeRevisionReviewer`, and
 * the unchecked author link `addRevisionAuthorProofreaderFormatter`.
 */
module ReviewerAssignment {
  import opened Wrappers
  import opened Records
  import opened People
  import opened ReviewerLifecycle

  /** The rejections of `addRevisionReviewer`, in the order they are checked. */
  datatype AddError = NotFound | CorrespondingAuthor | CoAuthor | AlreadyReviewer | AssociateEditor

  /** Manuscript `m` exists and has a current revision. */
  predicate HasCurrent(t: Tables, m: nat)
  {
    m < |t.manuscripts| && t.manuscripts[m].revisionId.Some?
  }

  function CurrentOf(t: Tables, m: nat): nat
    requires HasCurrent(t, m)
  {
    t.manuscripts[m].revisionId.value
  }

  /** `$manuscript->authors`: an author row of any revision of the manuscript carries the id `key` (of either kind). */
  predicate IsCoAuthor(t: Tables, m: nat, key: nat)
  {
    exists i :: 0 <= i < |t.revisionAuthors| && t.revisionAuthors[i].author.Key() == key
      && t.revisionAuthors[i].revisionId < |t.revisions| && t.revisions[t.revisionAuthors[i].revisionId].manuscriptId == m
  }

  /** `$revision->reviewers`: a reviewer row of revision `rev` carries the id `key` (of either kind). */
  predicate IsReviewerOn(rows: seq<Option<ReviewerRow>>, rev: nat, key: nat)
  {
    exists i :: 0 <= i < |rows| && rows[i].Some? && rows[i].value.revisionId == rev && rows[i].value.reviewer.Key() == key
  }

  /** `$manuscript->associateEditors`: some revision of the manuscript names the visible author `key` as associate editor. */
  predicate IsAssociateEditor(t: Tables, m: nat, key: nat)
  {
    key < |t.authors| && Visible(t.authors[key])
    && exists i :: 0 <= i < |t.revisions| && t.revisions[i].manuscriptId == m && t.revisions[i].associateEditorId == Some(key)
  }

  /**
   * The rejection chain of `addRevisionReviewer` for the person found by e-mail, with
   * `rows` as the reviewer rows the "already a reviewer" check looks at.
   */
  function CheckReviewer(t: Tables, m: nat, rows: seq<Option<ReviewerRow>>, email: string): (r: Result<Person, AddError>)
    requires HasCurrent(t, m)
    ensures r.Success? ==> FindByEmail(t.authors, t.guests, email) == Some(r.value)
  {
    var found := FindByEmail(t.authors, t.guests, email);
    if found.None? then Failure(NotFound)
    else
      var p := found.value;
      if p == Registered(t.manuscripts[m].authorId) then Failure(CorrespondingAuthor)
      else if IsCoAuthor(t, m, p.Key()) then Failure(CoAuthor)
      else if IsReviewerOn(rows, CurrentOf(t, m), p.Key()) then Failure(AlreadyReviewer)
      else if IsAssociateEditor(t, m, p.Key()) then Failure(AssociateEditor)
      else Success(p)
  }

  /** The row a successful add creates: unset section and creator, filled in by the `creating` hook. */
  function AddedRow(t: Tables, m: nat, p: Person, user: User): (r: ReviewerRow)
    requires HasCurrent(t, m)
    ensures r.revisionId == CurrentOf(t, m) && r.reviewer == p && r.section == user.section && r.createdBy == user.id
    ensures Fresh(r)
  {
    NewRow(CurrentOf(t, m), p, None, None, user)
  }

  /**
   * A person is accepted only if found by e-mail and none of the corresponding author, a
   * co-author of any revision, a reviewer of the current revision or an associate editor
   * of any revision; and the first reason that applies is the one reported.
   */
  lemma CheckReviewerOrder(t: Tables, m: nat, rows: seq<Option<ReviewerRow>>, email: string)
    requires HasCurrent(t, m)
    ensures CheckReviewer(t, m, rows, email).Success? <==>
      var found := FindByEmail(t.authors, t.guests, email);
      found.Some? && found.value != Registered(t.manuscripts[m].authorId)
      && !IsCoAuthor(t, m, found.value.Key()) && !IsReviewerOn(rows, CurrentOf(t, m), found.value.Key())
      && !IsAssociateEditor(t, m, found.value.Key())
    ensures CheckReviewer(t, m, rows, email) == Failure(AlreadyReviewer) ==>
      var found := FindByEmail(t.authors, t.guests, email);
      found.Some? && found.value != Registered(t.manuscripts[m].authorId) && !IsCoAuthor(t, m, found.value.Key())
  {
  }

  /** Once a reviewer has been added, adding the same e-mail again is rejected as a second addition. */
  lemma AddTwiceRejected(t: Tables, m: nat, email: string, user: User)
    requires HasCurrent(t, m) && CheckReviewer(t, m, t.reviewers, email).Success?
    ensures CheckReviewer(t, m, t.reviewers + [Some(AddedRow(t, m, CheckReviewer(t, m, t.reviewers, email).value, user))], email)
         == Failure(AlreadyReviewer)
  {
    var p := CheckReviewer(t, m, t.reviewers, email).value;
    var rows := t.reviewers + [Some(AddedRow(t, m, p, user))];
    assert rows[|t.reviewers|].Some?;
    assert IsReviewerOn(rows, CurrentOf(t, m), p.Key());
  }

  /** What a batch leaves behind: the reviewer rows, and the rejection that stopped it, if any. */
  datatype BatchOutcome = BatchOutcome(rows: seq<Option<ReviewerRow>>, error: Option<AddError>)

  /**
   * `addRevisionReviewers` as written: every entry is checked against the reviewer rows
   * loaded before the loop (the relation is cached), rows are appended one per accepted
   * entry, and the first rejection returns, keeping the rows already appended.
   */
  function BatchAsWritten(t: Tables, m: nat, rows: seq<Option<ReviewerRow>>, emails: seq<string>, user: User): (out: BatchOutcome)
    requires HasCurrent(t, m)
    ensures rows <= out.rows
    ensures out.error.None? ==> |out.rows| == |rows| + |emails|
    ensures out.error.Some? ==> |out.rows| < |rows| + |emails|
    ensures forall i :: |rows| <= i < |out.rows| ==> out.rows[i].Some? && out.rows[i].value.revisionId == CurrentOf(t, m)
    decreases |emails|
  {
    if |emails| == 0 then BatchOutcome(rows, None)
    else
      match CheckReviewer(t, m, t.reviewers, emails[0])
      case Failure(e) => BatchOutcome(rows, Some(e))
      case Success(p) => BatchAsWritten(t, m, rows + [Some(AddedRow(t, m, p, user))], emails[1..], user)
  }

  /** The batch with each entry checked against the rows as they are at that point, the way a single add checks. */
  function Batch(t: Tables, m: nat, rows: seq<Option<ReviewerRow>>, emails: seq<string>, user: User): (out: BatchOutcome)
    requires HasCurrent(t, m)
    ensures rows <= out.rows
    ensures out.error.None? ==> |out.rows| == |rows| + |emails|
    ensures out.error.Some? ==> |out.rows| < |rows| + |emails|
    decreases |emails|
  {
    if |emails| == 0 then BatchOutcome(rows, None)
    else
      match CheckReviewer(t, m, rows, emails[0])
      case Failure(e) => BatchOutcome(rows, Some(e))
      case Success(p) => Batch(t, m, rows + [Some(AddedRow(t, m, p, user))], emails[1..], user)
  }

  /** The same e-mail twice in one batch: as written, both entries pass and the reviewer gets two rows on the current revision. */
  lemma DuplicateBatchAsWritten(t: Tables, m: nat, email: string, user: User)
    requires HasCurrent(t, m) && CheckReviewer(t, m, t.reviewers, email).Success?
    ensures var row := Some(AddedRow(t, m, CheckReviewer(t, m, t.reviewers, email).value, user));
      BatchAsWritten(t, m, t.reviewers, [email, email], user) == BatchOutcome(t.reviewers + [row, row], None)
  {
    var row := Some(AddedRow(t, m, CheckReviewer(t, m, t.reviewers, email).value, user));
    assert [email, email][1..] == [email];
    assert [email][1..] == [];
    assert BatchAsWritten(t, m, t.reviewers + [row] + [row], [], user) == BatchOutcome(t.reviewers + [row] + [row], None);
    assert BatchAsWritten(t, m, t.reviewers + [row], [email], user) == BatchOutcome(t.reviewers + [row] + [row], None);
    assert t.reviewers + [row] + [row] == t.reviewers + [row, row];
  }

  /** Checked against the live rows, the second entry is rejected and the reviewer is attached once. */
  lemma DuplicateBatchRejected(t: Tables, m: nat, email: string, user: User)
    requires HasCurrent(t, m) && CheckReviewer(t, m, t.reviewers, email).Success?
    ensures var row := Some(AddedRow(t, m, CheckReviewer(t, m, t.reviewers, email).value, user));
      Batch(t, m, t.reviewers, [email, email], user) == BatchOutcome(t.reviewers + [row], Some(AlreadyReviewer))
  {
    AddTwiceRejected(t, m, email, user);
    assert [email, email][1..] == [email];
  }

  /** No two rows of revision `rev` name people with the same id. */
  predicate ReviewersDistinct(rows: seq<Option<ReviewerRow>>, rev: nat)
  {
    forall i, j ::
      (0 <= i < j < |rows| && rows[i].Some? && rows[j].Some? && rows[i].value.revisionId == rev
       && rows[j].value.revisionId == rev) ==> rows[i].value.reviewer.Key() != rows[j].value.reviewer.Key()
  }

  lemma AppendKeepsDistinct(rows: seq<Option<ReviewerRow>>, rev: nat, r: ReviewerRow)
    requires ReviewersDistinct(rows, rev) && !IsReviewerOn(rows, rev, r.reviewer.Key())
    ensures ReviewersDistinct(rows + [Some(r)], rev)
  {
    var rows' := rows + [Some(r)];
    forall i, j | 0 <= i < j < |rows'| && rows'[i].Some? && rows'[j].Some? && rows'[i].value.revisionId == rev
      && rows'[j].value.revisionId == rev
      ensures rows'[i].value.reviewer.Key() != rows'[j].value.reviewer.Key()
    {
      if j == |rows| {
        assert rows'[i] == rows[i];
      }
    }
  }

  /** Checked against the live rows, a batch never attaches the same person twice to the current revision. */
  lemma {:induction false} BatchKeepsReviewersDistinct(t: Tables, m: nat, rows: seq<Option<ReviewerRow>>, emails: seq<string>, user: User)
    requires HasCurrent(t, m) && ReviewersDistinct(rows, CurrentOf(t, m))
    ensures ReviewersDistinct(Batch(t, m, rows, emails, user).rows, CurrentOf(t, m))
    decreases |emails|
  {
    if |emails| > 0 {
      var c := CheckReviewer(t, m, rows, emails[0]);
      if c.Success? {
        var r := AddedRow(t, m, c.value, user);
        AppendKeepsDistinct(rows, CurrentOf(t, m), r);
        BatchKeepsReviewersDistinct(t, m, rows + [Some(r)], emails[1..], user);
      }
    }
  }

  /** A batch is its first part followed by the rest, unless the first part already stopped: earlier additions stay when a later entry is rejected. */
  lemma {:induction false} BatchSplits(t: Tables, m: nat, rows: seq<Option<ReviewerRow>>, first: seq<string>, rest: seq<string>, user: User)
    requires HasCurrent(t, m)
    ensures var o := Batch(t, m, rows, first, user);
      Batch(t, m, rows, first + rest, user) == if o.error.Some? then o else Batch(t, m, o.rows, rest, user)
    decreases |first|
  {
    if |first| > 0 {
      assert (first + rest)[0] == first[0];
      assert (first + rest)[1..] == first[1..] + rest;
      var c := CheckReviewer(t, m, rows, first[0]);
      if c.Success? {
        BatchSplits(t, m, rows + [Some(AddedRow(t, m, c.value, user))], first[1..], rest, user);
      }
    } else {
      assert first + rest == rest;
    }
  }

  /** A reviewer row of revision `oldRev` whose reviewer id has a review on `oldRev`. */
  predicate Reviewed(rows: seq<Option<ReviewerRow>>, reviews: seq<Review>, oldRev: nat, i: nat)
    requires i < |rows|
  {
    rows[i].Some? && rows[i].value.revisionId == oldRev && HasReviewOn(rows[i].value, reviews, oldRev)
  }

  /** The copy `updateRevise` makes of a reviewer row: same person, section and creator, on the new revision, with nothing invited or counted. */
  function CarriedRow(r: ReviewerRow, newRev: nat, user: User): (c: ReviewerRow)
    ensures c.revisionId == newRev && c.reviewer == r.reviewer && c.section == r.section
    ensures c.createdBy == if r.createdBy != 0 then r.createdBy else user.id
    ensures Fresh(c)
  {
    NewRow(newRev, r.reviewer, Some(r.section), Some(r.createdBy), user)
  }

  /** The rows `updateRevise` appends: one copy of each reviewed row of the old revision, in id order. */
  function CarriedForward(rows: seq<Option<ReviewerRow>>, reviews: seq<Review>, oldRev: nat, newRev: nat, user: User): (out: seq<Option<ReviewerRow>>)
    ensures |out| <= |rows|
    ensures forall k :: 0 <= k < |out| ==> out[k].Some? && out[k].value.revisionId == newRev && Fresh(out[k].value)
    ensures forall k :: 0 <= k < |out| ==>
      exists i :: 0 <= i < |rows| && Reviewed(rows, reviews, oldRev, i) && out[k].value == CarriedRow(rows[i].value, newRev, user)
    ensures forall i :: 0 <= i < |rows| && Reviewed(rows, reviews, oldRev, i) ==>
      Some(CarriedRow(rows[i].value, newRev, user)) in out
    decreases |rows|
  {
    if |rows| == 0 then []
    else
      var last := |rows| - 1;
      var prefix := rows[..last];
      var earlier := CarriedForward(prefix, reviews, oldRev, newRev, user);
      assert forall i :: 0 <= i < last ==> prefix[i] == rows[i];
      assert forall i :: 0 <= i < last ==> (Reviewed(prefix, reviews, oldRev, i) <==> Reviewed(rows, reviews, oldRev, i));
      if Reviewed(rows, reviews, oldRev, last) then
        var out := earlier + [Some(CarriedRow(rows[last].value, newRev, user))];
        assert out[|earlier|] == Some(CarriedRow(rows[last].value, newRev, user));
        assert forall k :: 0 <= k < |earlier| ==> out[k] == earlier[k];
        out
      else
        earlier
  }

  /** A row not of the old revision, or whose reviewer id has no review there, is never copied. */
  lemma UnreviewedNotCarried(rows: seq<Option<ReviewerRow>>, reviews: seq<Review>, oldRev: nat, newRev: nat, user: User, r: ReviewerRow)
    requires r.revisionId != oldRev || !HasReviewOn(r, reviews, oldRev)
    requires forall i :: 0 <= i < |rows| && rows[i].Some? && rows[i].value.reviewer == r.reviewer ==> rows[i].value == r
    ensures forall k :: 0 <= k < |CarriedForward(rows, reviews, oldRev, newRev, user)| ==>
      CarriedForward(rows, reviews, oldRev, newRev, user)[k].value.reviewer != r.reviewer
  {
  }

  /** The person that no reviewer row and no author row points at any more. */
  predicate Unreferenced(rows: seq<Option<ReviewerRow>>, authorRows: seq<AuthorRow>, p: Person)
  {
    (forall i :: 0 <= i < |rows| ==> !(rows[i].Some? && rows[i].value.reviewer == p))
    && (forall i :: 0 <= i < |authorRows| ==> authorRows[i].author != p)
  }

  /**
   * After the row is gone, `removeRevisionReviewer` also removes the reviewer when it is a
   * live guest the user created and nothing refers to it any more.
   */
  predicate PurgesGuest(guests: seq<Option<GuestRec>>, rows: seq<Option<ReviewerRow>>, authorRows: seq<AuthorRow>, p: Person, user: User)
  {
    p.Guest? && p.id < |guests| && guests[p.id].Some? && !guests[p.id].value.trashed
    && CanEdit(guests[p.id].value, Some(user.id)) && Unreferenced(rows, authorRows, p)
  }

  /** A registered reviewer is never removed with the row; nor is a guest that is still attached elsewhere. */
  lemma PurgeOnlyLoneGuests(guests: seq<Option<GuestRec>>, rows: seq<Option<ReviewerRow>>, authorRows: seq<AuthorRow>, p: Person, user: User, i: nat)
    requires i < |rows| && rows[i].Some? && rows[i].value.reviewer == p
    ensures !PurgesGuest(guests, rows, authorRows, p, user)
    ensures p.Registered? ==> !PurgesGuest(guests, rows[i := None], authorRows, p, user)
  {
  }

  /** `addRevisionAuthorProofreaderFormatter`: the person found by e-mail is linked to the current revision without any check. */
  function LinkAuthor(t: Tables, m: nat, email: string, user: User): (r: Result<AuthorRow, AddError>)
    requires HasCurrent(t, m)
    ensures r.Failure? <==> FindByEmail(t.authors, t.guests, email).None?
    ensures r.Failure? ==> r.error == NotFound
    ensures r.Success? ==>
      r.value.revisionId == CurrentOf(t, m) && Some(r.value.author) == FindByEmail(t.authors, t.guests, email)
      && r.value.section == user.section && r.value.createdBy == user.id
  {
    var found := FindByEmail(t.authors, t.guests, email);
    if found.None? then Failure(NotFound)
    else Success(AuthorRow(CurrentOf(t, m), found.value, user.section, user.id))
  }

  /** Unlike a reviewer, the corresponding author can be linked as formatter or proofreader. */
  lemma LinkAuthorUnchecked(t: Tables, m: nat, user: User)
    requires HasCurrent(t, m)
    requires t.manuscripts[m].authorId < |t.authors|
    requires FirstAuthorWithEmail(t.authors, t.authors[t.manuscripts[m].authorId].email) == Some(t.manuscripts[m].authorId)
    ensures var email := t.authors[t.manuscripts[m].authorId].email;
      LinkAuthor(t, m, email, user).Success? && CheckReviewer(t, m, t.reviewers, email) == Failure(CorrespondingAuthor)
  {
  }
}
