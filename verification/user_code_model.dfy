/**
 * The UserCode document (models/UserCode.model.js), a stored code snippet, and the store of
 * snippets as a sequence in natural order.
 */
module UserCodeModel {
  import opened Wrappers
  import opened UserModel

  type SnippetId = nat

  /**
   * Every text field is optional. `user` references a User id that the schema does not
   * require to exist; `username` is a plain copy supplied at creation and never synchronised
   * with the owner. Of the timestamps only `updatedAt` is kept.
   */
  datatype Snippet = Snippet(
    id: SnippetId,
    code: Option<string>,
    codeLanguage: Option<string>,
    title: Option<string>,
    description: Option<string>,
    user: Option<UserId>,
    username: Option<string>,
    isDeleted: bool,
    updatedAt: nat)

  predicate IsFirstSnippet(snippets: seq<Snippet>, i: int, id: SnippetId) {
    && 0 <= i < |snippets|
    && snippets[i].id == id
    && forall j :: 0 <= j < i ==> snippets[j].id != id
  }

  predicate NoSnippet(snippets: seq<Snippet>, id: SnippetId) {
    forall j :: 0 <= j < |snippets| ==> snippets[j].id != id
  }

  /** `findById`: the position of the first snippet with that id, if any. */
  function FindSnippet(snippets: seq<Snippet>, id: SnippetId): (r: Option<nat>)
    ensures r.Some? ==> IsFirstSnippet(snippets, r.value, id)
    ensures r.None? ==> NoSnippet(snippets, id)
  {
    if snippets == [] then None
    else if snippets[0].id == id then Some(0)
    else match FindSnippet(snippets[1..], id)
      case None => None
      case Some(i) => Some(i + 1)
  }

  /** `find({ isDeleted: deleted })`, in store order. */
  function SnippetsWithDeleted(snippets: seq<Snippet>, deleted: bool): (r: seq<Snippet>)
    ensures forall s :: s in r <==> s in snippets && s.isDeleted == deleted
    ensures forall s :: multiset(r)[s] == if s.isDeleted == deleted then multiset(snippets)[s] else 0
  {
    if snippets == [] then []
    else
      var rest := SnippetsWithDeleted(snippets[..|snippets| - 1], deleted);
      var last := snippets[|snippets| - 1];
      assert snippets == snippets[..|snippets| - 1] + [last];
      if last.isDeleted == deleted then rest + [last] else rest
  }

  /** The live and the deleted snippets together are the whole store, each as often as it is stored. */
  lemma SnippetListingsPartition(snippets: seq<Snippet>)
    ensures multiset(SnippetsWithDeleted(snippets, false)) + multiset(SnippetsWithDeleted(snippets, true)) == multiset(snippets)
    ensures |SnippetsWithDeleted(snippets, false)| + |SnippetsWithDeleted(snippets, true)| == |snippets|
  {
    // Each snippet is counted in exactly one selection, by the multiplicity clause of SnippetsWithDeleted.
  }

  /** `find({ user: owner, isDeleted: false })`, in store order. */
  function ActiveOwnedBy(snippets: seq<Snippet>, owner: Option<UserId>): (r: seq<Snippet>)
    ensures forall s :: s in r <==> s in snippets && s.user == owner && !s.isDeleted
    ensures forall s :: multiset(r)[s] == if s.user == owner && !s.isDeleted then multiset(snippets)[s] else 0
  {
    if snippets == [] then []
    else
      var rest := ActiveOwnedBy(snippets[..|snippets| - 1], owner);
      var last := snippets[|snippets| - 1];
      assert snippets == snippets[..|snippets| - 1] + [last];
      if last.user == owner && !last.isDeleted then rest + [last] else rest
  }

  /** Ordered by `updatedAt`, most recent first. */
  predicate NewestFirst(xs: seq<Snippet>) {
    forall i, j :: 0 <= i < j < |xs| ==> xs[i].updatedAt >= xs[j].updatedAt
  }

  /** `after` is `before` with snippet `i` replaced by `s` and every other snippet unchanged. */
  predicate SnippetChangesOnly(before: seq<Snippet>, after: seq<Snippet>, i: int, s: Snippet) {
    && 0 <= i < |before|
    && |after| == |before|
    && after[i] == s
    && forall j :: 0 <= j < |before| && j != i ==> after[j] == before[j]
  }

  lemma FindSnippetStable(snippets: seq<Snippet>, i: nat, s: Snippet, id: SnippetId)
    requires i < |snippets| && s.id == snippets[i].id
    ensures FindSnippet(snippets[i := s], id) == FindSnippet(snippets, id)
  {
    var after := snippets[i := s];
    var r, r' := FindSnippet(snippets, id), FindSnippet(after, id);
    assert forall j :: 0 <= j < |snippets| ==> (snippets[j].id == id <==> after[j].id == id);
    if r.Some? && r'.Some? {
      assert !(r.value < r'.value) && !(r'.value < r.value);
    }
  }
}
