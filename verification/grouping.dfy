/**
 * The grouped listings `getAllCodesByUsername` and `getOnlyDeletedCodesByUsername`
 * (controllers/userCodeController.js). Both take the fetched list of snippets with each
 * snippet's owner joined in, drop the snippets whose owner is deleted, group the rest by the
 * owner's username in fetch order, and emit the groups with their keys sorted ascending.
 * The two handlers differ only in the `isDeleted` value of the query that fetches the list.
 */
module Grouping {
  import opened Wrappers
  import opened JsText
  import opened UserModel
  import opened UserCodeModel

  /** The owner as `populate("user", "username isDeleted")` joins it in. */
  datatype OwnerRef = OwnerRef(username: string, isDeleted: bool)

  /** A fetched snippet; `owner` is None when `code.user` is null. */
  datatype Joined = Joined(snippet: Snippet, owner: Option<OwnerRef>)

  /** One entry of the `codesByUser` object. */
  datatype Group = Group(username: string, codes: seq<Snippet>)

  predicate Resolved(xs: seq<Joined>) {
    forall i :: 0 <= i < |xs| ==> xs[i].owner.Some?
  }

  predicate Visible(j: Joined) {
    j.owner.Some? && !j.owner.value.isDeleted
  }

  predicate VisibleUnder(j: Joined, k: string) {
    Visible(j) && j.owner.value.username == k
  }

  // ----- the reference definition -----

  /** The snippets, in fetch order, whose joined owner is live and named `k`. */
  function Select(xs: seq<Joined>, k: string): seq<Snippet> {
    if xs == [] then []
    else
      var last := xs[|xs| - 1];
      Select(xs[..|xs| - 1], k) + (if VisibleUnder(last, k) then [last.snippet] else [])
  }

  lemma {:induction false} SelectMembers(xs: seq<Joined>, k: string, s: Snippet)
    ensures s in Select(xs, k) <==> exists p :: 0 <= p < |xs| && xs[p].snippet == s && VisibleUnder(xs[p], k)
  {
    if xs != [] {
      var init := xs[..|xs| - 1];
      SelectMembers(init, k, s);
      assert forall p :: 0 <= p < |init| ==> init[p] == xs[p];
    }
  }

  predicate Ascending(keys: seq<string>) {
    forall i, j :: 0 <= i < j < |keys| ==> StrLess(keys[i], keys[j])
  }

  /**
   * What the source promises of the grouped result: keys strictly ascending, each group
   * exactly the live-owner snippets of that username in fetch order and never empty, and a
   * group for every username that has such a snippet.
   */
  ghost predicate GroupedBy(xs: seq<Joined>, gs: seq<Group>) {
    && (forall i, j :: 0 <= i < j < |gs| ==> StrLess(gs[i].username, gs[j].username))
    && (forall i :: 0 <= i < |gs| ==> gs[i].codes == Select(xs, gs[i].username) && gs[i].codes != [])
    && (forall k :: Select(xs, k) != [] ==> exists i :: 0 <= i < |gs| && gs[i].username == k)
  }

  // ----- the forEach that fills `codesByUser` -----

  /** The object being filled: its keys in insertion order, and what each key holds. */
  datatype Buckets = Buckets(order: seq<string>, groups: map<string, seq<Snippet>>)

  predicate Distinct(keys: seq<string>) {
    forall i, j :: 0 <= i < j < |keys| ==> keys[i] != keys[j]
  }

  /** `b` is what the loop holds after it has seen `xs`. */
  ghost predicate Holds(b: Buckets, xs: seq<Joined>) {
    && Distinct(b.order)
    && (forall k :: k in b.order <==> k in b.groups)
    && (forall k :: k in b.groups ==> b.groups[k] == Select(xs, k) && b.groups[k] != [])
    && (forall k :: k !in b.groups ==> Select(xs, k) == [])
  }

  /** `codesByUser[key] = [code]` for a new key, `codesByUser[key].push(code)` otherwise. */
  function Push(b: Buckets, key: string, s: Snippet): Buckets {
    if key in b.groups then Buckets(b.order, b.groups[key := b.groups[key] + [s]])
    else Buckets(b.order + [key], b.groups[key := [s]])
  }

  lemma PushHolds(b: Buckets, init: seq<Joined>, last: Joined)
    requires Holds(b, init) && Visible(last)
    ensures Holds(Push(b, last.owner.value.username, last.snippet), init + [last])
  {
    var xs := init + [last];
    var key := last.owner.value.username;
    assert xs[..|xs| - 1] == init;
    var b' := Push(b, key, last.snippet);
    forall k ensures Select(xs, k) == Select(init, k) + (if k == key then [last.snippet] else []) {
    }
    if key !in b.groups {
      assert key !in b.order;
      forall i, j | 0 <= i < j < |b'.order| ensures b'.order[i] != b'.order[j] {
        if j == |b.order| {
          assert b.order[i] in b.order;
        }
      }
    }
  }

  lemma SkipHolds(b: Buckets, init: seq<Joined>, last: Joined)
    requires Holds(b, init) && !Visible(last)
    ensures Holds(b, init + [last])
  {
    var xs := init + [last];
    assert xs[..|xs| - 1] == init;
    forall k ensures Select(xs, k) == Select(init, k) {
    }
  }

  /** The `forEach`; None when some snippet's owner is null, where destructuring throws. */
  function Collect(xs: seq<Joined>): (r: Option<Buckets>)
    ensures r.None? <==> !Resolved(xs)
    ensures r.Some? ==> Holds(r.value, xs)
  {
    if xs == [] then Some(Buckets([], map[]))
    else
      var init, last := xs[..|xs| - 1], xs[|xs| - 1];
      assert xs == init + [last];
      assert Resolved(xs) <==> Resolved(init) && last.owner.Some? by {
        assert forall i :: 0 <= i < |init| ==> init[i] == xs[i];
      }
      match Collect(init)
      case None => None
      case Some(b) =>
        if last.owner.None? then None
        else if last.owner.value.isDeleted then
          SkipHolds(b, init, last);
          Some(b)
        else
          PushHolds(b, init, last);
          Some(Push(b, last.owner.value.username, last.snippet))
  }

  // ----- Object.keys(codesByUser).sort() -----

  lemma LessThanAll(k: string, keys: seq<string>)
    requires Ascending(keys) && keys != [] && StrLess(k, keys[0])
    ensures forall j :: 0 <= j < |keys| ==> StrLess(k, keys[j])
  {
    forall j | 0 < j < |keys| ensures StrLess(k, keys[j]) {
      StrLessTransitive(k, keys[0], keys[j]);
    }
  }

  lemma AscendingCons(k: string, keys: seq<string>)
    requires Ascending(keys)
    requires forall j :: 0 <= j < |keys| ==> StrLess(k, keys[j])
    ensures Ascending([k] + keys)
  {
    var r := [k] + keys;
    forall i, j | 0 <= i < j < |r| ensures StrLess(r[i], r[j]) {
      if i > 0 {
        assert r[i] == keys[i - 1] && r[j] == keys[j - 1];
      }
    }
  }

  function InsertKey(k: string, keys: seq<string>): (r: seq<string>)
    requires Ascending(keys) && k !in keys
    ensures Ascending(r)
    ensures multiset(r) == multiset(keys) + multiset{k}
    ensures forall y :: y in r ==> y == k || y in keys
  {
    if keys == [] then [k]
    else if StrLess(k, keys[0]) then
      LessThanAll(k, keys);
      AscendingCons(k, keys);
      [k] + keys
    else
      StrLessTotal(k, keys[0]);
      var rest := InsertKey(k, keys[1..]);
      assert keys == [keys[0]] + keys[1..];
      assert forall j :: 0 <= j < |rest| ==> StrLess(keys[0], rest[j]) by {
        forall j | 0 <= j < |rest| ensures StrLess(keys[0], rest[j]) {
          assert rest[j] in rest;
          if rest[j] != k {
            var m :| 0 <= m < |keys[1..]| && keys[1..][m] == rest[j];
            assert keys[m + 1] == rest[j];
          }
        }
      }
      AscendingCons(keys[0], rest);
      [keys[0]] + rest
  }

  /** Array.prototype.sort with the default comparison, on distinct keys. */
  function SortKeys(keys: seq<string>): (r: seq<string>)
    requires Distinct(keys)
    ensures Ascending(r)
    ensures multiset(r) == multiset(keys)
  {
    if keys == [] then []
    else
      assert keys == [keys[0]] + keys[1..];
      assert Distinct(keys[1..]) by {
        forall i, j | 0 <= i < j < |keys[1..]| ensures keys[1..][i] != keys[1..][j] {
          assert keys[1..][i] == keys[i + 1] && keys[1..][j] == keys[j + 1];
        }
      }
      var rest := SortKeys(keys[1..]);
      assert keys[0] !in keys[1..] by {
        forall m | 0 <= m < |keys[1..]| ensures keys[1..][m] != keys[0] {
          assert keys[1..][m] == keys[m + 1];
        }
      }
      assert keys[0] !in rest by {
        assert keys[0] !in multiset(keys[1..]);
      }
      InsertKey(keys[0], rest)
  }

  // ----- the handler -----

  datatype GroupReply = Grouped(codesByUser: seq<Group>) | GroupFault {
    function Status(): int {
      if Grouped? then 200 else 500
    }
  }

  /** The `reduce` that copies the sorted keys into a fresh object. */
  function Emit(b: Buckets, keys: seq<string>): seq<Group>
    requires forall k :: k in keys ==> k in b.groups
  {
    seq(|keys|, i requires 0 <= i < |keys| => Group(keys[i], b.groups[keys[i]]))
  }

  lemma EmitGroupedBy(xs: seq<Joined>, b: Buckets)
    requires Holds(b, xs)
    ensures forall k :: k in SortKeys(b.order) ==> k in b.groups
    ensures GroupedBy(xs, Emit(b, SortKeys(b.order)))
  {
    var keys := SortKeys(b.order);
    assert forall k :: k in keys <==> k in b.order by {
      forall k ensures k in keys <==> k in b.order {
        assert k in keys <==> k in multiset(keys);
        assert k in b.order <==> k in multiset(b.order);
      }
    }
    var gs := Emit(b, keys);
    forall k | Select(xs, k) != [] ensures exists i :: 0 <= i < |gs| && gs[i].username == k {
      assert k in keys;
      var i :| 0 <= i < |keys| && keys[i] == k;
      assert gs[i].username == k;
    }
  }

  /**
   * The grouped listing, as the source evidently intends it: 500 when a fetched snippet has
   * no resolvable owner, otherwise the groups the specification describes.
   */
  function GroupedListing(xs: seq<Joined>): (r: GroupReply)
    ensures r.GroupFault? <==> !Resolved(xs)
    ensures r.Grouped? ==> GroupedBy(xs, r.codesByUser)
  {
    match Collect(xs)
    case None => GroupFault
    case Some(b) =>
      EmitGroupedBy(xs, b);
      Grouped(Emit(b, SortKeys(b.order)))
  }

  // ----- properties of the grouped result -----

  /** Group keys are distinct. */
  lemma GroupKeysDistinct(xs: seq<Joined>, gs: seq<Group>, i: int, j: int)
    requires GroupedBy(xs, gs)
    requires 0 <= i < |gs| && 0 <= j < |gs| && i != j
    ensures gs[i].username != gs[j].username
  {
    if i < j {
      StrLessIrreflexive(gs[i].username);
    } else {
      StrLessIrreflexive(gs[j].username);
    }
  }

  /** The join gave each snippet a single owner. */
  predicate ConsistentJoin(xs: seq<Joined>) {
    forall p, q :: 0 <= p < |xs| && 0 <= q < |xs| && xs[p].snippet == xs[q].snippet ==> xs[p].owner == xs[q].owner
  }

  /** A snippet whose owner is live lands in the group of that owner's username and in no other. */
  lemma EachVisibleInExactlyOneGroup(xs: seq<Joined>, gs: seq<Group>, p: int)
    requires GroupedBy(xs, gs) && ConsistentJoin(xs)
    requires 0 <= p < |xs| && Visible(xs[p])
    ensures exists i :: 0 <= i < |gs| && gs[i].username == xs[p].owner.value.username && xs[p].snippet in gs[i].codes
    ensures forall i :: 0 <= i < |gs| && xs[p].snippet in gs[i].codes ==> gs[i].username == xs[p].owner.value.username
  {
    var s, k := xs[p].snippet, xs[p].owner.value.username;
    SelectMembers(xs, k, s);
    var i :| 0 <= i < |gs| && gs[i].username == k;
    assert s in gs[i].codes;
    forall i' | 0 <= i' < |gs| && s in gs[i'].codes ensures gs[i'].username == k {
      SelectMembers(xs, gs[i'].username, s);
    }
  }

  /** Every grouped snippet comes from a fetched entry whose live owner has the group's name. */
  lemma OnlyVisibleGrouped(xs: seq<Joined>, gs: seq<Group>, i: int, s: Snippet)
    requires GroupedBy(xs, gs)
    requires 0 <= i < |gs| && s in gs[i].codes
    ensures exists p :: 0 <= p < |xs| && xs[p].snippet == s && VisibleUnder(xs[p], gs[i].username)
  {
    SelectMembers(xs, gs[i].username, s);
  }

  function SnippetsOf(xs: seq<Joined>): (r: seq<Snippet>)
    ensures |r| == |xs| && forall p :: 0 <= p < |xs| ==> r[p] == xs[p].snippet
  {
    seq(|xs|, p requires 0 <= p < |xs| => xs[p].snippet)
  }

  /** `a` is `b` with some elements removed, the rest in their original order. */
  predicate IsSubsequence(a: seq<Snippet>, b: seq<Snippet>)
    decreases |b|
  {
    if a == [] then true
    else if b == [] then false
    else
      || (a[|a| - 1] == b[|b| - 1] && IsSubsequence(a[..|a| - 1], b[..|b| - 1]))
      || IsSubsequence(a, b[..|b| - 1])
  }

  /** Each group keeps the fetch order: it is a subsequence of the fetched list. */
  lemma {:induction false} SelectIsSubsequence(xs: seq<Joined>, k: string)
    ensures IsSubsequence(Select(xs, k), SnippetsOf(xs))
  {
    if xs != [] {
      var init := xs[..|xs| - 1];
      var last := xs[|xs| - 1];
      SelectIsSubsequence(init, k);
      var b := SnippetsOf(xs);
      assert b[..|b| - 1] == SnippetsOf(init);
      var a := Select(xs, k);
      if VisibleUnder(last, k) {
        assert a[..|a| - 1] == Select(init, k);
      } else {
        assert a == Select(init, k);
        if a != [] {
          assert IsSubsequence(a, b[..|b| - 1]);
        }
      }
    }
  }

  lemma GroupsAreSubsequences(xs: seq<Joined>, gs: seq<Group>)
    requires GroupedBy(xs, gs)
    ensures forall i :: 0 <= i < |gs| ==> IsSubsequence(gs[i].codes, SnippetsOf(xs))
  {
    forall i | 0 <= i < |gs| ensures IsSubsequence(gs[i].codes, SnippetsOf(xs)) {
      SelectIsSubsequence(xs, gs[i].username);
    }
  }

  predicate FetchedNewestFirst(xs: seq<Joined>) {
    forall i, j :: 0 <= i < j < |xs| ==> xs[i].snippet.updatedAt >= xs[j].snippet.updatedAt
  }

  lemma {:induction false} SelectNewestFirst(xs: seq<Joined>, k: string)
    requires FetchedNewestFirst(xs)
    ensures NewestFirst(Select(xs, k))
  {
    if xs != [] {
      var init := xs[..|xs| - 1];
      var last := xs[|xs| - 1];
      assert FetchedNewestFirst(init) by {
        assert forall i :: 0 <= i < |init| ==> init[i] == xs[i];
      }
      SelectNewestFirst(init, k);
      var a := Select(init, k);
      if VisibleUnder(last, k) {
        forall i | 0 <= i < |a| ensures a[i].updatedAt >= last.snippet.updatedAt {
          SelectMembers(init, k, a[i]);
          var p :| 0 <= p < |init| && init[p].snippet == a[i] && VisibleUnder(init[p], k);
          assert init[p] == xs[p];
        }
        var r := a + [last.snippet];
        forall i, j | 0 <= i < j < |r| ensures r[i].updatedAt >= r[j].updatedAt {
          if j < |a| {
            assert r[i] == a[i] && r[j] == a[j];
          }
        }
      }
    }
  }

  /** When the store returns the list newest first, every group is newest first too. */
  lemma GroupsKeepFetchOrder(xs: seq<Joined>, gs: seq<Group>)
    requires GroupedBy(xs, gs) && FetchedNewestFirst(xs)
    ensures forall i :: 0 <= i < |gs| ==> NewestFirst(gs[i].codes)
  {
    forall i | 0 <= i < |gs| ensures NewestFirst(gs[i].codes) {
      SelectNewestFirst(xs, gs[i].username);
    }
  }

  function KeysOf(gs: seq<Group>): (r: seq<string>)
    ensures |r| == |gs| && forall i :: 0 <= i < |gs| ==> r[i] == gs[i].username
  {
    seq(|gs|, i requires 0 <= i < |gs| => gs[i].username)
  }

  lemma {:induction false} AscendingSameElements(a: seq<string>, b: seq<string>)
    requires Ascending(a) && Ascending(b)
    requires forall k :: k in a <==> k in b
    ensures a == b
    decreases |a|
  {
    assert |a| == 0 <==> |b| == 0 by {
      if a != [] {
        assert a[0] in a;
      }
      if b != [] {
        assert b[0] in b;
      }
    }
    if a != [] {
      assert a[0] in b;
      assert b[0] in a;
      var j :| 0 <= j < |b| && b[j] == a[0];
      var i :| 0 <= i < |a| && a[i] == b[0];
      if j > 0 {
        assert StrLess(b[0], a[0]);
        if i > 0 {
          assert StrLess(a[0], b[0]);
          StrLessAsymmetric(a[0], b[0]);
        } else {
          StrLessIrreflexive(a[0]);
        }
      }
      assert a[0] == b[0];
      var a', b' := a[1..], b[1..];
      assert Ascending(a') by {
        forall x, y | 0 <= x < y < |a'| ensures StrLess(a'[x], a'[y]) {
          assert a'[x] == a[x + 1] && a'[y] == a[y + 1];
        }
      }
      assert Ascending(b') by {
        forall x, y | 0 <= x < y < |b'| ensures StrLess(b'[x], b'[y]) {
          assert b'[x] == b[x + 1] && b'[y] == b[y + 1];
        }
      }
      forall k ensures k in a' <==> k in b' {
        if k in a' {
          var x :| 0 <= x < |a'| && a'[x] == k;
          assert StrLess(a[0], a[x + 1]);
          StrLessIrreflexive(k);
          assert k in b && k != b[0];
          var y :| 0 <= y < |b| && b[y] == k;
          assert y > 0 && b'[y - 1] == k;
        }
        if k in b' {
          var y :| 0 <= y < |b'| && b'[y] == k;
          assert StrLess(b[0], b[y + 1]);
          StrLessIrreflexive(k);
          assert k in a && k != a[0];
          var x :| 0 <= x < |a| && a[x] == k;
          assert x > 0 && a'[x - 1] == k;
        }
      }
      AscendingSameElements(a', b');
      assert a == [a[0]] + a' && b == [b[0]] + b';
    }
  }

  /**
   * The grouped result is determined by the fetched list alone: any two results meeting
   * the specification are equal, so the choice of sorting algorithm cannot matter.
   */
  lemma GroupedByUnique(xs: seq<Joined>, gs: seq<Group>, hs: seq<Group>)
    requires GroupedBy(xs, gs) && GroupedBy(xs, hs)
    ensures gs == hs
  {
    var a, b := KeysOf(gs), KeysOf(hs);
    forall k ensures k in a <==> k in b {
      if k in a {
        var i :| 0 <= i < |a| && a[i] == k;
        assert Select(xs, k) != [];
        var j :| 0 <= j < |hs| && hs[j].username == k;
        assert b[j] == k;
      }
      if k in b {
        var j :| 0 <= j < |b| && b[j] == k;
        assert Select(xs, k) != [];
        var i :| 0 <= i < |gs| && gs[i].username == k;
        assert a[i] == k;
      }
    }
    assert Ascending(a) && Ascending(b);
    AscendingSameElements(a, b);
    assert forall i :: 0 <= i < |gs| ==> gs[i] == hs[i];
  }

  // ----- the fetch: the query, joined with the owners -----

  /** `populate("user", …)`: the owner by id among all users, deleted ones included. */
  function OwnerOfSnippet(users: seq<User>, s: Snippet): Option<OwnerRef> {
    match s.user
    case None => None
    case Some(uid) =>
      match FindUser(users, ById(uid))
      case None => None
      case Some(i) => Some(OwnerRef(users[i].username, users[i].isDeleted))
  }

  /** `find({ isDeleted: deleted }).populate(…)`, in store order. */
  function Fetch(snippets: seq<Snippet>, users: seq<User>, deleted: bool): (r: seq<Joined>)
    ensures forall j :: j in r <==>
              j.snippet in snippets && j.snippet.isDeleted == deleted && j.owner == OwnerOfSnippet(users, j.snippet)
    ensures forall j :: multiset(r)[j] ==
              if j.snippet.isDeleted == deleted && j.owner == OwnerOfSnippet(users, j.snippet)
              then multiset(snippets)[j.snippet] else 0
  {
    if snippets == [] then []
    else
      var rest := Fetch(snippets[..|snippets| - 1], users, deleted);
      var last := snippets[|snippets| - 1];
      assert snippets == snippets[..|snippets| - 1] + [last];
      assert multiset(snippets) == multiset(snippets[..|snippets| - 1]) + multiset{last};
      if last.isDeleted == deleted then rest + [Joined(last, OwnerOfSnippet(users, last))] else rest
  }

  predicate LiveOwner(users: seq<User>, s: Snippet) {
    OwnerOfSnippet(users, s).Some? && !OwnerOfSnippet(users, s).value.isDeleted
  }

  lemma FetchedMembers(snippets: seq<Snippet>, users: seq<User>, deleted: bool, fetched: seq<Joined>)
    requires multiset(fetched) == multiset(Fetch(snippets, users, deleted))
    ensures forall j :: j in fetched <==>
              j.snippet in snippets && j.snippet.isDeleted == deleted && j.owner == OwnerOfSnippet(users, j.snippet)
  {
    var all := Fetch(snippets, users, deleted);
    forall j ensures j in fetched <==> j in all {
      assert j in fetched <==> j in multiset(fetched);
      assert j in all <==> j in multiset(all);
    }
  }

  predicate Dangling(snippets: seq<Snippet>, users: seq<User>, deleted: bool) {
    exists s :: s in snippets && s.isDeleted == deleted && OwnerOfSnippet(users, s).None?
  }

  lemma FaultIffDangling(snippets: seq<Snippet>, users: seq<User>, deleted: bool, fetched: seq<Joined>)
    requires forall j :: j in fetched <==>
               j.snippet in snippets && j.snippet.isDeleted == deleted && j.owner == OwnerOfSnippet(users, j.snippet)
    ensures !Resolved(fetched) <==> Dangling(snippets, users, deleted)
  {
    if !Resolved(fetched) {
      var p :| 0 <= p < |fetched| && fetched[p].owner.None?;
      assert fetched[p] in fetched;
    }
    if Dangling(snippets, users, deleted) {
      var s :| s in snippets && s.isDeleted == deleted && OwnerOfSnippet(users, s).None?;
      assert Joined(s, None) in fetched;
    }
  }

  lemma GroupedFromStore(snippets: seq<Snippet>, users: seq<User>, deleted: bool, fetched: seq<Joined>, gs: seq<Group>)
    requires forall j :: j in fetched <==>
               j.snippet in snippets && j.snippet.isDeleted == deleted && j.owner == OwnerOfSnippet(users, j.snippet)
    requires GroupedBy(fetched, gs)
    ensures forall i, s :: 0 <= i < |gs| && s in gs[i].codes ==>
              s in snippets && s.isDeleted == deleted && OwnerOfSnippet(users, s) == Some(OwnerRef(gs[i].username, false))
  {
    forall i, s | 0 <= i < |gs| && s in gs[i].codes
      ensures s in snippets && s.isDeleted == deleted && OwnerOfSnippet(users, s) == Some(OwnerRef(gs[i].username, false))
    {
      OnlyVisibleGrouped(fetched, gs, i, s);
      var p :| 0 <= p < |fetched| && fetched[p].snippet == s && VisibleUnder(fetched[p], gs[i].username);
      assert fetched[p] in fetched;
    }
  }

  lemma StoreInGrouped(snippets: seq<Snippet>, users: seq<User>, deleted: bool, fetched: seq<Joined>, gs: seq<Group>)
    requires forall j :: j in fetched <==>
               j.snippet in snippets && j.snippet.isDeleted == deleted && j.owner == OwnerOfSnippet(users, j.snippet)
    requires GroupedBy(fetched, gs)
    ensures forall s :: s in snippets && s.isDeleted == deleted && LiveOwner(users, s) ==>
              exists i :: 0 <= i < |gs| && s in gs[i].codes
  {
    forall s | s in snippets && s.isDeleted == deleted && LiveOwner(users, s)
      ensures exists i :: 0 <= i < |gs| && s in gs[i].codes
    {
      var j := Joined(s, OwnerOfSnippet(users, s));
      assert j in fetched;
      var p :| 0 <= p < |fetched| && fetched[p] == j;
      var k := j.owner.value.username;
      SelectMembers(fetched, k, s);
      var i :| 0 <= i < |gs| && gs[i].username == k;
      assert s in gs[i].codes;
    }
  }

  /**
   * Whatever order the store returns the query result in, the listing fails exactly when a
   * matching snippet's owner does not resolve, and otherwise shows exactly the matching
   * snippets whose owner is live, each under the owner's current username (not the snippet's
   * own `username` field).
   */
  lemma ListingMatchesStore(snippets: seq<Snippet>, users: seq<User>, deleted: bool, fetched: seq<Joined>)
    requires multiset(fetched) == multiset(Fetch(snippets, users, deleted))
    ensures GroupedListing(fetched).GroupFault? <==> Dangling(snippets, users, deleted)
    ensures GroupedListing(fetched).Grouped? ==>
              var gs := GroupedListing(fetched).codesByUser;
              && (forall s :: (exists i :: 0 <= i < |gs| && s in gs[i].codes) <==>
                    s in snippets && s.isDeleted == deleted && LiveOwner(users, s))
              && (forall i, s :: 0 <= i < |gs| && s in gs[i].codes ==>
                    OwnerOfSnippet(users, s) == Some(OwnerRef(gs[i].username, false)))
  {
    FetchedMembers(snippets, users, deleted, fetched);
    FaultIffDangling(snippets, users, deleted, fetched);
    var r := GroupedListing(fetched);
    if r.Grouped? {
      var gs := r.codesByUser;
      GroupedFromStore(snippets, users, deleted, fetched, gs);
      StoreInGrouped(snippets, users, deleted, fetched, gs);
      forall s ensures (exists i :: 0 <= i < |gs| && s in gs[i].codes) <==>
                         s in snippets && s.isDeleted == deleted && LiveOwner(users, s)
      {
        if exists i :: 0 <= i < |gs| && s in gs[i].codes {
          var i :| 0 <= i < |gs| && s in gs[i].codes;
          assert OwnerOfSnippet(users, s) == Some(OwnerRef(gs[i].username, false));
        }
      }
    }
  }

  /**
   * `getOnlyDeletedCodesByUsername` still drops the snippets of deleted owners: a deleted
   * snippet is listed exactly when its owner resolves and is live.
   */
  lemma DeletedListingKeepsLiveOwners(snippets: seq<Snippet>, users: seq<User>, fetched: seq<Joined>, s: Snippet)
    requires multiset(fetched) == multiset(Fetch(snippets, users, true))
    requires !Dangling(snippets, users, true)
    requires s in snippets && s.isDeleted
    ensures GroupedListing(fetched).Grouped?
    ensures var gs := GroupedListing(fetched).codesByUser;
            (exists i :: 0 <= i < |gs| && s in gs[i].codes) <==> LiveOwner(users, s)
  {
    ListingMatchesStore(snippets, users, true, fetched);
  }

  // ----- the handler as written -----

  /**
   * The names an empty object literal already answers to through Object.prototype. For
   * these keys `codesByUser[username]` is truthy before anything was stored, so the handler
   * calls `.push` on a function (or on Object.prototype) and throws.
   */
  const ObjectPrototypeKeys: set<string> := {
    "constructor", "__defineGetter__", "__defineSetter__", "hasOwnProperty",
    "__lookupGetter__", "__lookupSetter__", "isPrototypeOf", "propertyIsEnumerable",
    "toString", "valueOf", "__proto__", "toLocaleString"
  }

  predicate PrototypeNamed(xs: seq<Joined>) {
    exists p :: 0 <= p < |xs| && Visible(xs[p]) && xs[p].owner.value.username in ObjectPrototypeKeys
  }

  /**
   * The `forEach` exactly as written: it also throws on the first live owner whose username
   * is an inherited property name.
   */
  function CollectAsWritten(xs: seq<Joined>): (r: Option<Buckets>)
    ensures r.None? <==> !Resolved(xs) || PrototypeNamed(xs)
    ensures r.Some? ==> r == Collect(xs)
  {
    if xs == [] then Some(Buckets([], map[]))
    else
      var init, last := xs[..|xs| - 1], xs[|xs| - 1];
      assert Resolved(xs) <==> Resolved(init) && last.owner.Some? by {
        assert forall i :: 0 <= i < |init| ==> init[i] == xs[i];
      }
      assert PrototypeNamed(xs) <==>
               PrototypeNamed(init) || (Visible(last) && last.owner.value.username in ObjectPrototypeKeys) by {
        assert forall i :: 0 <= i < |init| ==> init[i] == xs[i];
      }
      match CollectAsWritten(init)
      case None => None
      case Some(b) =>
        if last.owner.None? then None
        else if last.owner.value.isDeleted then Some(b)
        else if last.owner.value.username in ObjectPrototypeKeys then None
        else Some(Push(b, last.owner.value.username, last.snippet))
  }

  /** The handler exactly as written. */
  function GroupedListingAsWritten(xs: seq<Joined>): (r: GroupReply)
    ensures !PrototypeNamed(xs) ==> r == GroupedListing(xs)
    ensures PrototypeNamed(xs) ==> r == GroupFault
  {
    match CollectAsWritten(xs)
    case None => GroupFault
    case Some(b) =>
      EmitGroupedBy(xs, b);
      Grouped(Emit(b, SortKeys(b.order)))
  }

  /**
   * A single live user named "toString" with one snippet: the handler as written answers
   * 500, where the intended listing groups the snippet under "toString".
   */
  lemma PrototypeNameBreaksListing()
    ensures var s := Snippet(1, Some("x"), Some("js"), Some("t"), None, Some(7), Some("toString"), false, 0);
            var xs := [Joined(s, Some(OwnerRef("toString", false)))];
            && GroupedListingAsWritten(xs).Status() == 500
            && GroupedListing(xs) == Grouped([Group("toString", [s])])
  {
    var s := Snippet(1, Some("x"), Some("js"), Some("t"), None, Some(7), Some("toString"), false, 0);
    var xs := [Joined(s, Some(OwnerRef("toString", false)))];
    assert PrototypeNamed(xs) by {
      assert "toString" in ObjectPrototypeKeys;
      assert Visible(xs[0]) && xs[0].owner.value.username == "toString";
    }
    assert Resolved(xs);
    var gs := GroupedListing(xs).codesByUser;
    var expected := [Group("toString", [s])];
    SelectSingle(xs[0], "toString");
    assert GroupedBy(xs, expected) by {
      forall k | Select(xs, k) != [] ensures exists i :: 0 <= i < |expected| && expected[i].username == k {
        SelectSingle(xs[0], k);
        assert expected[0].username == k;
      }
    }
    GroupedByUnique(xs, gs, expected);
  }

  lemma SelectSingle(j: Joined, k: string)
    ensures Select([j], k) == if VisibleUnder(j, k) then [j.snippet] else []
  {
    assert [j][..0] == [];
  }
}
