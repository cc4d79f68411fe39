/**
 * Registered authors and guest authors: the display name both compute, the deletion mark
 * and the global scope that hides deleted authors, the role scopes, who may edit a guest,
 * and the "author first, then guest" lookup by e-mail the controllers use.
 */
module People {
  import opened Wrappers
  import opened Records
  import opened Text

  /** PHP truthiness of a nullable string column: null, "" and "0" are falsy. */
  predicate Truthy(v: Option<string>)
  {
    v.Some? && v.value != "" && v.value != "0"
  }

  /** `collect(...)->only([first, middle, last])->filter()`: the truthy name parts in column order. */
  function KeptParts(first: Option<string>, middle: Option<string>, last: Option<string>): (parts: seq<string>)
    ensures |parts| <= 3
    ensures forall i :: 0 <= i < |parts| ==> parts[i] != "" && parts[i] != "0"
    ensures (|parts| == 0) <==> !Truthy(first) && !Truthy(middle) && !Truthy(last)
  {
    (if Truthy(first) then [first.value] else [])
    + (if Truthy(middle) then [middle.value] else [])
    + (if Truthy(last) then [last.value] else [])
  }

  /** The `name` accessor of `Author` and `GuestAuthor`: the kept parts joined by single spaces. */
  function Name(first: Option<string>, middle: Option<string>, last: Option<string>): (shown: string)
    ensures Truthy(first) ==> first.value <= shown
  {
    var parts := KeptParts(first, middle, last);
    assert Truthy(first) ==> parts[0] == first.value;
    Join(" ", parts)
  }

  function AuthorName(a: AuthorRec): string
  {
    Name(a.firstName, a.middleName, a.lastName)
  }

  function GuestName(g: GuestRec): string
  {
    Name(g.firstName, g.middleName, g.lastName)
  }

  lemma {:induction false} JoinNonEmpty(parts: seq<string>)
    requires |parts| >= 1 && parts[0] != ""
    ensures Join(" ", parts) != ""
  {
    if |parts| > 1 {
      assert |Join(" ", parts)| >= |parts[0]|;
    }
  }

  /**
   * The name is empty exactly when no part is truthy, and when no part holds a space,
   * splitting the name on spaces gives back the kept parts.
   */
  lemma NameParts(first: Option<string>, middle: Option<string>, last: Option<string>)
    ensures Name(first, middle, last) == "" <==> !Truthy(first) && !Truthy(middle) && !Truthy(last)
    ensures var parts := KeptParts(first, middle, last);
      |parts| >= 1 && (forall i :: 0 <= i < |parts| ==> ' ' !in parts[i]) ==>
      Split(Name(first, middle, last), ' ') == parts
  {
    var parts := KeptParts(first, middle, last);
    if |parts| >= 1 {
      JoinNonEmpty(parts);
      if forall i :: 0 <= i < |parts| ==> ' ' !in parts[i] {
        SplitJoin(parts, ' ');
      }
    }
  }

  /** A missing middle name leaves exactly one space between first and last name. */
  lemma NameWithoutMiddle(first: string, last: string)
    requires Truthy(Some(first)) && Truthy(Some(last))
    ensures Name(Some(first), None, Some(last)) == first + " " + last
    ensures Name(Some(first), Some("0"), Some(last)) == first + " " + last
  {
    assert KeptParts(Some(first), None, Some(last)) == [first, last];
    assert KeptParts(Some(first), Some("0"), Some(last)) == [first, last];
    assert Join(" ", [first, last]) == first + " " + Join(" ", [last]);
  }

  /** `isDeleted()`: the stored flag is exactly true (the column is a non-null boolean). */
  predicate IsDeleted(a: AuthorRec)
  {
    a.isDeleted
  }

  /** The `notDeleted` global scope: an author row that any author query can see. */
  predicate Visible(a: AuthorRec)
  {
    !a.isDeleted
  }

  /** `Author::reviewer()`: visible, and holding the role named 'Reviewer'. */
  predicate InReviewerScope(a: AuthorRec)
  {
    Visible(a) && "Reviewer" in a.roles
  }

  /** `Author::associateEditor()`: visible, and holding the role named 'Associate Editor'. */
  predicate InAssociateEditorScope(a: AuthorRec)
  {
    Visible(a) && "Associate Editor" in a.roles
  }

  /** A deleted author falls out of every author query, the role scopes included. */
  lemma DeletedAuthorsHidden(a: AuthorRec)
    ensures IsDeleted(a) <==> !Visible(a)
    ensures IsDeleted(a) ==> !InReviewerScope(a) && !InAssociateEditorScope(a)
  {
  }

  /** The guest `creating` hook: a new guest is stamped with the signed-in user as creator. */
  function NewGuest(email: string, first: Option<string>, middle: Option<string>, last: Option<string>, userId: nat): (g: GuestRec)
    ensures g.createdBy == userId && !g.trashed && g.email == email
    ensures GuestName(g) == Name(first, middle, last)
  {
    GuestRec(email, first, middle, last, userId, false)
  }

  /** `can_edit`: the signed-in user, if any, created the guest. */
  predicate CanEdit(g: GuestRec, userId: Option<nat>)
  {
    userId.Some? && userId.value == g.createdBy
  }

  /** The creator of a guest may edit it; nobody may when nobody is signed in. */
  lemma CreatorCanEdit(email: string, first: Option<string>, middle: Option<string>, last: Option<string>, userId: nat, other: nat)
    requires other != userId
    ensures CanEdit(NewGuest(email, first, middle, last, userId), Some(userId))
    ensures !CanEdit(NewGuest(email, first, middle, last, userId), Some(other))
    ensures !CanEdit(NewGuest(email, first, middle, last, userId), None)
  {
  }

  /** `Author::query()->where('email', $email)->first()`: the lowest visible author id with that e-mail. */
  function FirstAuthorWithEmail(authors: seq<AuthorRec>, email: string): (found: Option<nat>)
    ensures found.Some? ==> found.value < |authors| && Visible(authors[found.value]) && authors[found.value].email == email
    ensures found.Some? ==> forall j :: 0 <= j < found.value ==> !(Visible(authors[j]) && authors[j].email == email)
    ensures found.None? <==> forall j :: 0 <= j < |authors| ==> !(Visible(authors[j]) && authors[j].email == email)
    decreases |authors|
  {
    if |authors| == 0 then None
    else
      var last := |authors| - 1;
      var earlier := FirstAuthorWithEmail(authors[..last], email);
      assert forall j :: 0 <= j < last ==> authors[..last][j] == authors[j];
      if earlier.Some? then earlier
      else if Visible(authors[last]) && authors[last].email == email then Some(last)
      else None
  }

  /** A guest row that has not been removed or trashed and carries the e-mail. */
  predicate LiveGuestWithEmail(g: Option<GuestRec>, email: string)
  {
    g.Some? && !g.value.trashed && g.value.email == email
  }

  /** `GuestAuthor::query()->where('email', $email)->first()`: the lowest live guest id with that e-mail. */
  function FirstGuestWithEmail(guests: seq<Option<GuestRec>>, email: string): (found: Option<nat>)
    ensures found.Some? ==> found.value < |guests| && LiveGuestWithEmail(guests[found.value], email)
    ensures found.Some? ==> forall j :: 0 <= j < found.value ==> !LiveGuestWithEmail(guests[j], email)
    ensures found.None? <==> forall j :: 0 <= j < |guests| ==> !LiveGuestWithEmail(guests[j], email)
    decreases |guests|
  {
    if |guests| == 0 then None
    else
      var last := |guests| - 1;
      var earlier := FirstGuestWithEmail(guests[..last], email);
      assert forall j :: 0 <= j < last ==> guests[..last][j] == guests[j];
      if earlier.Some? then earlier
      else if LiveGuestWithEmail(guests[last], email) then Some(last)
      else None
  }

  /** The controllers' lookup: a registered author with the e-mail if there is one, otherwise a guest. */
  function FindByEmail(authors: seq<AuthorRec>, guests: seq<Option<GuestRec>>, email: string): (found: Option<Person>)
    ensures found.Some? && found.value.Registered? ==>
      found.value.id < |authors| && Visible(authors[found.value.id]) && authors[found.value.id].email == email
    ensures found.Some? && found.value.Guest? ==> found.value.id < |guests| && LiveGuestWithEmail(guests[found.value.id], email)
  {
    var a := FirstAuthorWithEmail(authors, email);
    if a.Some? then Some(Registered(a.value))
    else
      var g := FirstGuestWithEmail(guests, email);
      if g.Some? then Some(Guest(g.value)) else None
  }

  /** A registered author always wins over a guest with the same e-mail; nothing is found only when neither exists. */
  lemma FindByEmailPrefersAuthors(authors: seq<AuthorRec>, guests: seq<Option<GuestRec>>, email: string)
    ensures FindByEmail(authors, guests, email).None? <==>
      (forall j :: 0 <= j < |authors| ==> !(Visible(authors[j]) && authors[j].email == email))
      && (forall j :: 0 <= j < |guests| ==> !LiveGuestWithEmail(guests[j], email))
    ensures (exists j :: 0 <= j < |authors| && Visible(authors[j]) && authors[j].email == email) ==>
      FindByEmail(authors, guests, email).Some? && FindByEmail(authors, guests, email).value.Registered?
    ensures FindByEmail(authors, guests, email).Some? && FindByEmail(authors, guests, email).value.Guest? ==>
      var g := FindByEmail(authors, guests, email).value.id;
      g < |guests| && LiveGuestWithEmail(guests[g], email)
  {
  }
}
