/** The TypeORM repository the service delegates to, over an in-memory
    store kept in insertion order. Lookups return the first matching row,
    `find` applies `skip`/`take` as an offset/limit window, `save` writes a
    row by its key, and `delete`/`update` act on every row with a given
    student number and report how many rows they affected. */
module Repository {
  import opened Users
  import opened Paging

  /** Why the repository's promise rejects instead of resolving. */
  datatype RepoError =
    | NegativeWindow        // a negative LIMIT or OFFSET reaches the database
    | UpdateValuesMissing   // an update with no column to set
    | DuplicateKey          // an update would give a row a key another row holds

  /** The settled state of a repository promise. */
  datatype Reply<+T> = Resolved(value: T) | Rejected(error: RepoError)

  /** Index of the first row satisfying `where`, or -1 when none does. */
  function FirstIndex<T>(s: seq<T>, where: T -> bool): (i: int)
    ensures -1 <= i < |s|
    ensures i == -1 <==> !Any(s, where)
    ensures i >= 0 ==> where(s[i]) && forall j :: 0 <= j < i ==> !where(s[j])
  {
    if |s| == 0 then -1
    else if where(s[0]) then 0
    else
      var i := FirstIndex(s[1..], where);
      if i == -1 then -1 else i + 1
  }

  /** `findOne({ where })`: the first matching row in store order. */
  function FindOne<T>(s: seq<T>, where: T -> bool): (r: Option<T>)
    ensures r.None? <==> !Any(s, where)
    ensures r.Some? ==> r.value in s && where(r.value)
    ensures r.Some? ==> exists i :: 0 <= i < |s| && s[i] == r.value && forall j :: 0 <= j < i ==> !where(s[j])
  {
    var i := FirstIndex(s, where);
    if i < 0 then None else Some(s[i])
  }

  /** `find({ where })` before any window: the matching rows in store order. */
  function Filter<T(!new)>(s: seq<T>, keep: T -> bool): (r: seq<T>)
    ensures |r| <= |s|
    ensures forall x :: x in r <==> x in s && keep(x)
    ensures |r| == |s| <==> forall i :: 0 <= i < |s| ==> keep(s[i])
  {
    if |s| == 0 then []
    else
      var rest := Filter(s[1..], keep);
      assert forall x :: x in s <==> x == s[0] || x in s[1..];
      if keep(s[0]) then [s[0]] + rest else rest
  }

  /** Filtering keeps the store's order: it distributes over concatenation. */
  lemma {:induction false} FilterAppend<T(!new)>(a: seq<T>, b: seq<T>, keep: T -> bool)
    ensures Filter(a + b, keep) == Filter(a, keep) + Filter(b, keep)
  {
    if |a| > 0 {
      assert (a + b)[1..] == a[1..] + b;
      FilterAppend(a[1..], b, keep);
    } else {
      assert a + b == b;
    }
  }

  /** How many rows satisfy `p`. */
  function Count<T>(s: seq<T>, p: T -> bool): (n: nat)
    ensures n <= |s|
    ensures n > 0 <==> Any(s, p)
  {
    if |s| == 0 then 0
    else
      var n := Count(s[1..], p);
      assert Any(s, p) <==> p(s[0]) || Any(s[1..], p) by {
        if Any(s[1..], p) {
          var i :| 0 <= i < |s[1..]| && p(s[1..][i]);
          assert p(s[i + 1]);
        }
        if Any(s, p) && !p(s[0]) {
          var i :| 0 <= i < |s| && p(s[i]);
          assert s[1..][i - 1] == s[i];
        }
      }
      (if p(s[0]) then 1 else 0) + n
  }

  /** `find({ skip, take })`: the offset/limit window of the rows. A zero
      `take` sets no limit (TypeORM drops a falsy take); a negative skip or
      take reaches the database as a negative OFFSET or LIMIT, which it
      refuses. */
  function Window<T>(s: seq<T>, skip: int, take: int): (r: Reply<seq<T>>)
    ensures r.Rejected? <==> skip < 0 || take < 0
    ensures r.Resolved? ==> |r.value| == 0 || skip + |r.value| <= |s|
    ensures r.Resolved? ==> forall i :: 0 <= i < |r.value| ==> r.value[i] == s[skip + i]
    ensures r.Resolved? && take == 0 ==> |r.value| == Max(0, |s| - skip)
    ensures r.Resolved? && take > 0 ==> |r.value| == Min(take, Max(0, |s| - skip))
  {
    if skip < 0 || take < 0 then Rejected(NegativeWindow)
    else
      var lo := Min(skip, |s|);
      var hi := if take == 0 then |s| else Min(lo + take, |s|);
      Resolved(s[lo..hi])
  }

  /** With a positive page size and page number, the window the service
      computes is exactly that page. */
  lemma WindowIsPage<T>(s: seq<T>, size: nat, page: nat)
    requires size >= 1 && page >= 1
    ensures Window(s, (page - 1) * size, size) == Resolved(Page(s, size, page))
  {
    var w := Window(s, (page - 1) * size, size);
    assert w.Resolved?;
    assert |w.value| == |Page(s, size, page)|;
    assert w.value == Page(s, size, page);
  }

  /** Every row satisfying `where` rewritten by `f`; the rest untouched. */
  function MapWhere<T>(s: seq<T>, where: T -> bool, f: T -> T): (r: seq<T>)
    ensures |r| == |s|
    ensures forall i :: 0 <= i < |s| ==> r[i] == (if where(s[i]) then f(s[i]) else s[i])
  {
    if |s| == 0 then []
    else [if where(s[0]) then f(s[0]) else s[0]] + MapWhere(s[1..], where, f)
  }

  /** `save(user)`: a row whose key is already stored is overwritten in
      place; otherwise the row is appended. Either way, a lookup by its key
      afterwards finds exactly the saved row. */
  function Save(s: Store, u: User): (r: Store)
    ensures HasKey(s, u.student_number) ==>
              |r| == |s| &&
              forall i :: 0 <= i < |s| ==> r[i] == (if s[i].student_number == u.student_number then u else s[i])
    ensures !HasKey(s, u.student_number) ==> r == s + [u]
    ensures FindOne(r, KeyIs(u.student_number)) == Some(u)
  {
    var k := u.student_number;
    if HasKey(s, k) then
      var r := MapWhere(s, KeyIs(k), (_: User) => u);
      assert Any(r, KeyIs(k)) by {
        var i :| 0 <= i < |s| && s[i].student_number == k;
        assert KeyIs(k)(r[i]);
      }
      r
    else
      var r := s + [u];
      assert KeyIs(k)(r[|s|]);
      assert forall j :: 0 <= j < |s| ==> !KeyIs(k)(r[j]);
      assert FirstIndex(r, KeyIs(k)) == |s|;
      r
  }

  /** `delete(key)`: removes every row with that student number and reports
      how many went. */
  function Delete(s: Store, k: int): (r: (nat, Store))
    ensures r.0 > 0 <==> HasKey(s, k)
    ensures r.0 == Count(s, KeyIs(k))
    ensures !HasKey(r.1, k)
    ensures forall u :: u in r.1 <==> u in s && u.student_number != k
    ensures r.0 + |r.1| == |s|
  {
    var rest := Filter(s, KeyIsNot(k));
    assert !HasKey(rest, k) by {
      forall i | 0 <= i < |rest|
        ensures rest[i].student_number != k
      {
        assert rest[i] in rest;
      }
    }
    FilterCount(s, k);
    (|s| - |rest|, rest)
  }

  /** The rows a delete keeps plus the rows with the key make up the store. */
  lemma {:induction false} FilterCount(s: Store, k: int)
    ensures |Filter(s, KeyIsNot(k))| + Count(s, KeyIs(k)) == |s|
  {
    if |s| > 0 {
      FilterCount(s[1..], k);
    }
  }

  /** Delete acts row by row: on a single row it keeps the row exactly when
      the key differs, and on a concatenation it deletes from each part
      separately. Together these fix the kept rows' order and multiplicity. */
  lemma DeleteRowByRow(a: Store, b: Store, u: User, k: int)
    ensures Delete([u], k).1 == (if u.student_number == k then [] else [u])
    ensures Delete(a + b, k).1 == Delete(a, k).1 + Delete(b, k).1
    ensures Delete(a + b, k).0 == Delete(a, k).0 + Delete(b, k).0
  {
    assert [u][1..] == [];
    FilterAppend(a, b, KeyIsNot(k));
  }

  /** The update would move rows with key `k` onto a different key that
      another row already holds, which the database refuses. */
  predicate MovesOntoTakenKey(s: Store, k: int, patch: UserPatch) {
    && HasKey(s, k)
    && patch.student_number.Some?
    && patch.student_number.value != k
    && HasKey(s, patch.student_number.value)
  }

  /** `update(key, patch)`: writes the patch over every row with that student
      number and reports how many rows matched. A patch that sets no column
      is refused, and so is one that moves a row onto a taken key. */
  function Update(s: Store, k: int, patch: UserPatch): (r: Reply<(nat, Store)>)
    ensures r == Rejected(UpdateValuesMissing) <==> patch.IsEmpty()
    ensures r == Rejected(DuplicateKey) <==> !patch.IsEmpty() && MovesOntoTakenKey(s, k, patch)
    ensures r.Resolved? <==> !patch.IsEmpty() && !MovesOntoTakenKey(s, k, patch)
    ensures r.Resolved? ==> (r.value.0 > 0 <==> HasKey(s, k))
    ensures r.Resolved? ==>
              |r.value.1| == |s| &&
              forall i :: 0 <= i < |s| ==>
                r.value.1[i] == (if s[i].student_number == k then patch.ApplyTo(s[i]) else s[i])
  {
    if patch.IsEmpty() then Rejected(UpdateValuesMissing)
    else if MovesOntoTakenKey(s, k, patch) then Rejected(DuplicateKey)
    else
      Resolved((Count(s, KeyIs(k)), MapWhere(s, KeyIs(k), (u: User) => patch.ApplyTo(u))))
  }
}
