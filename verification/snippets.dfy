/**
 * The snippet handlers of controllers/userCodeController.js other than the grouped listings:
 * create, list, look up, partial update, soft delete and revert. `now` is the clock value the
 * store writes into `updatedAt`.
 */
module Snippets {
  import opened Wrappers
  import opened Query
  import opened UserModel
  import opened UserCodeModel

  /** The body fields `createCode` reads. */
  datatype CodeFields = CodeFields(
    code: Option<string>,
    codeLanguage: Option<string>,
    title: Option<string>,
    description: Option<string>,
    username: Option<string>)

  datatype CodeBody =
    | CodeFault                          // { error: error.message }
    | CodeError(message: string)         // { error: "<fixed text>" }
    | One(userCode: Snippet)             // { userCode } of a create or an update
    | Many(userCodes: seq<Snippet>)      // { userCodes }
    | MaybeOne(found: Option<Snippet>)   // a lookup or toggle that may yield null

  datatype CodeReply = CodeReply(status: int, body: CodeBody)

  datatype CodeOutcome = CodeOutcome(snippets: seq<Snippet>, reply: CodeReply)

  const CodeNotFoundMsg := "Code not found"

  /** The owner reference a query id yields: an absent id leaves `user` unset. */
  function OwnerOf(id: IdArg): Option<UserId>
    requires !id.BadId?
  {
    if id.Id? then Some(id.id) else None
  }

  /**
   * `createCode`: a new snippet owned by the query id (unset when the id is absent), with
   * `isDeleted` false. The owner is not checked to exist. `freshId` is the id the store assigns.
   */
  function CreateCode(snippets: seq<Snippet>, fields: CodeFields, owner: IdArg, freshId: SnippetId, now: nat): (o: CodeOutcome)
    ensures owner.BadId? ==> o == CodeOutcome(snippets, CodeReply(500, CodeFault))
    ensures !owner.BadId? ==>
              && |o.snippets| == |snippets| + 1
              && o.snippets[..|snippets|] == snippets
              && var s := o.snippets[|snippets|];
              && s.id == freshId
              && s.code == fields.code && s.codeLanguage == fields.codeLanguage
              && s.title == fields.title && s.description == fields.description
              && s.username == fields.username
              && (owner.Id? ==> s.user == Some(owner.id))
              && (owner.NoId? ==> s.user.None?)
              && !s.isDeleted && s.updatedAt == now
              && o.reply == CodeReply(201, One(s))
  {
    if owner.BadId? then CodeOutcome(snippets, CodeReply(500, CodeFault))
    else
      var s := Snippet(freshId, fields.code, fields.codeLanguage, fields.title, fields.description,
                       OwnerOf(owner), fields.username, false, now);
      assert (snippets + [s])[..|snippets|] == snippets;
      CodeOutcome(snippets + [s], CodeReply(201, One(s)))
  }

  /** `getAllCodes`: every non-deleted snippet, in store order. */
  function GetAllCodes(snippets: seq<Snippet>): (r: CodeReply)
    ensures r.status == 200 && r.body.Many?
    ensures forall s :: s in r.body.userCodes <==> s in snippets && !s.isDeleted
    ensures forall s :: multiset(r.body.userCodes)[s] == if s.isDeleted then 0 else multiset(snippets)[s]
  {
    CodeReply(200, Many(SnippetsWithDeleted(snippets, false)))
  }

  /** `getCodeById`: the snippet or null, whatever its `isDeleted`. */
  function GetCodeById(snippets: seq<Snippet>, id: IdArg): (r: CodeReply)
    ensures id.BadId? ==> r == CodeReply(500, CodeFault)
    ensures id.NoId? ==> r == CodeReply(200, MaybeOne(None))
    ensures id.Id? && NoSnippet(snippets, id.id) ==> r == CodeReply(200, MaybeOne(None))
    ensures forall i :: id.Id? && IsFirstSnippet(snippets, i, id.id) ==> r == CodeReply(200, MaybeOne(Some(snippets[i])))
  {
    match id
    case BadId => CodeReply(500, CodeFault)
    case NoId => CodeReply(200, MaybeOne(None))
    case Id(x) =>
      match FindSnippet(snippets, x)
      case None => CodeReply(200, MaybeOne(None))
      case Some(i) => CodeReply(200, MaybeOne(Some(snippets[i])))
  }

  /** A snippet just created is what a lookup by its id returns. */
  lemma CreateThenGetById(snippets: seq<Snippet>, fields: CodeFields, owner: IdArg, freshId: SnippetId, now: nat)
    requires !owner.BadId?
    requires NoSnippet(snippets, freshId)
    ensures var o := CreateCode(snippets, fields, owner, freshId, now);
            GetCodeById(o.snippets, Id(freshId)) == CodeReply(200, MaybeOne(Some(o.snippets[|snippets|])))
  {
    // The appended snippet is the first with freshId, since no earlier one has it.
  }

  // ----- ordering by updatedAt -----

  lemma NewestFirstCons(x: Snippet, xs: seq<Snippet>)
    requires NewestFirst(xs)
    requires forall j :: 0 <= j < |xs| ==> x.updatedAt >= xs[j].updatedAt
    ensures NewestFirst([x] + xs)
  {
    var r := [x] + xs;
    forall i, j | 0 <= i < j < |r| ensures r[i].updatedAt >= r[j].updatedAt {
      if i > 0 {
        assert r[i] == xs[i - 1] && r[j] == xs[j - 1];
      }
    }
  }

  function InsertNewestFirst(s: Snippet, xs: seq<Snippet>): (r: seq<Snippet>)
    requires NewestFirst(xs)
    ensures NewestFirst(r)
    ensures multiset(r) == multiset(xs) + multiset{s}
    ensures forall y :: y in r ==> y == s || y in xs
  {
    if xs == [] then [s]
    else if s.updatedAt >= xs[0].updatedAt then
      assert forall j :: 0 <= j < |xs| ==> s.updatedAt >= xs[j].updatedAt;
      [s] + xs
    else
      var rest := InsertNewestFirst(s, xs[1..]);
      assert xs == [xs[0]] + xs[1..];
      assert forall j :: 0 <= j < |rest| ==> xs[0].updatedAt >= rest[j].updatedAt by {
        forall j | 0 <= j < |rest| ensures xs[0].updatedAt >= rest[j].updatedAt {
          assert rest[j] in rest;
        }
      }
      NewestFirstCons(xs[0], rest);
      [xs[0]] + rest
  }

  /** `.sort({ updatedAt: -1 })`: the same snippets, newest first. */
  function SortNewestFirst(xs: seq<Snippet>): (r: seq<Snippet>)
    ensures NewestFirst(r)
    ensures multiset(r) == multiset(xs)
  {
    if xs == [] then []
    else
      assert xs == [xs[0]] + xs[1..];
      InsertNewestFirst(xs[0], SortNewestFirst(xs[1..]))
  }

  /**
   * `getCodesByUserId`: the owner's non-deleted snippets, newest first. An absent id matches
   * the snippets that have no owner.
   */
  function GetCodesByUserId(snippets: seq<Snippet>, id: IdArg): (r: CodeReply)
    ensures id.BadId? ==> r == CodeReply(500, CodeFault)
    ensures !id.BadId? ==>
              && r.status == 200 && r.body.Many?
              && NewestFirst(r.body.userCodes)
              && multiset(r.body.userCodes) == multiset(ActiveOwnedBy(snippets, OwnerOf(id)))
              && forall s :: s in r.body.userCodes <==> s in snippets && s.user == OwnerOf(id) && !s.isDeleted
  {
    if id.BadId? then CodeReply(500, CodeFault)
    else
      var r := SortNewestFirst(ActiveOwnedBy(snippets, OwnerOf(id)));
      assert forall s :: s in r <==> s in multiset(r);
      CodeReply(200, Many(r))
  }

  // ----- update, soft delete, revert -----

  /**
   * `updateCode`: writes only the supplied `code`, `title` and `description` (absent ones are
   * left alone) and bumps `updatedAt`; an unknown id is a 404.
   */
  function UpdateCode(snippets: seq<Snippet>, id: IdArg, code: Option<string>, title: Option<string>,
                      description: Option<string>, now: nat): (o: CodeOutcome)
    ensures id.BadId? ==> o == CodeOutcome(snippets, CodeReply(500, CodeFault))
    ensures id.NoId? || (id.Id? && NoSnippet(snippets, id.id)) ==>
              o == CodeOutcome(snippets, CodeReply(404, CodeError(CodeNotFoundMsg)))
    ensures forall i :: id.Id? && IsFirstSnippet(snippets, i, id.id) ==>
              var s := snippets[i];
              && |o.snippets| == |snippets|
              && var t := o.snippets[i];
              && SnippetChangesOnly(snippets, o.snippets, i, t)
              && o.reply == CodeReply(200, One(t))
              && t.code == (if code.Some? then code else s.code)
              && t.title == (if title.Some? then title else s.title)
              && t.description == (if description.Some? then description else s.description)
              && t.updatedAt == now
              && t.id == s.id && t.codeLanguage == s.codeLanguage && t.user == s.user
              && t.username == s.username && t.isDeleted == s.isDeleted
  {
    match id
    case BadId => CodeOutcome(snippets, CodeReply(500, CodeFault))
    case NoId => CodeOutcome(snippets, CodeReply(404, CodeError(CodeNotFoundMsg)))
    case Id(x) =>
      match FindSnippet(snippets, x)
      case None => CodeOutcome(snippets, CodeReply(404, CodeError(CodeNotFoundMsg)))
      case Some(i) =>
        var s := snippets[i];
        var t := s.(code := if code.Some? then code else s.code,
                    title := if title.Some? then title else s.title,
                    description := if description.Some? then description else s.description,
                    updatedAt := now);
        CodeOutcome(snippets[i := t], CodeReply(200, One(t)))
  }

  /**
   * The shared body of `deleteCode` (flag true) and `revertDeletedCode` (flag false).
   * An unknown or absent id is not an error: the reply is 200 with a null payload.
   */
  function SetCodeDeleted(snippets: seq<Snippet>, id: IdArg, flag: bool, now: nat): (o: CodeOutcome)
    ensures id.BadId? ==> o == CodeOutcome(snippets, CodeReply(500, CodeFault))
    ensures id.NoId? || (id.Id? && NoSnippet(snippets, id.id)) ==>
              o == CodeOutcome(snippets, CodeReply(200, MaybeOne(None)))
    ensures forall i :: id.Id? && IsFirstSnippet(snippets, i, id.id) ==>
              && SnippetChangesOnly(snippets, o.snippets, i, snippets[i].(isDeleted := flag, updatedAt := now))
              && o.reply == CodeReply(200, MaybeOne(Some(o.snippets[i])))
  {
    match id
    case BadId => CodeOutcome(snippets, CodeReply(500, CodeFault))
    case NoId => CodeOutcome(snippets, CodeReply(200, MaybeOne(None)))
    case Id(x) =>
      match FindSnippet(snippets, x)
      case None => CodeOutcome(snippets, CodeReply(200, MaybeOne(None)))
      case Some(i) =>
        var t := snippets[i].(isDeleted := flag, updatedAt := now);
        CodeOutcome(snippets[i := t], CodeReply(200, MaybeOne(Some(t))))
  }

  /** `deleteCode` */
  function DeleteCode(snippets: seq<Snippet>, id: IdArg, now: nat): (o: CodeOutcome)
    ensures o == SetCodeDeleted(snippets, id, true, now)
    ensures o.reply.status in {200, 500}
  {
    SetCodeDeleted(snippets, id, true, now)
  }

  /** `revertDeletedCode` */
  function RevertDeletedCode(snippets: seq<Snippet>, id: IdArg, now: nat): (o: CodeOutcome)
    ensures o == SetCodeDeleted(snippets, id, false, now)
    ensures o.reply.status in {200, 500}
  {
    SetCodeDeleted(snippets, id, false, now)
  }

  /** Repeating a delete or a revert at the same time changes nothing more. */
  lemma {:induction false} SetCodeDeletedIdempotent(snippets: seq<Snippet>, id: IdArg, flag: bool, now: nat)
    ensures var once := SetCodeDeleted(snippets, id, flag, now);
            SetCodeDeleted(once.snippets, id, flag, now) == once
  {
    if id.Id? {
      match FindSnippet(snippets, id.id)
      case None =>
      case Some(i) =>
        FindSnippetStable(snippets, i, snippets[i].(isDeleted := true, updatedAt := now), id.id);
        FindSnippetStable(snippets, i, snippets[i].(isDeleted := flag, updatedAt := now), id.id);
    }
  }

  /** Reverting a snippet that was live before the delete restores it, up to `updatedAt`. */
  lemma {:induction false} RevertUndoesDeleteCode(snippets: seq<Snippet>, x: SnippetId, i: nat, t1: nat, t2: nat)
    requires IsFirstSnippet(snippets, i, x) && !snippets[i].isDeleted
    ensures RevertDeletedCode(DeleteCode(snippets, Id(x), t1).snippets, Id(x), t2).snippets
              == snippets[i := snippets[i].(updatedAt := t2)]
  {
    FindSnippetStable(snippets, i, snippets[i].(isDeleted := true, updatedAt := t1), x);
    var mid := DeleteCode(snippets, Id(x), t1).snippets;
    assert FindSnippet(mid, x) == Some(i);
    assert mid[i := mid[i].(isDeleted := false, updatedAt := t2)] == snippets[i := snippets[i].(updatedAt := t2)];
  }
}
