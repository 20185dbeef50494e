/**
 * The translation store (the Spring Data repository the service writes
 * through), as a value: the stored rows in the order they were saved, and the
 * next id the store will hand out. Every operation the service uses is a
 * function here; the class in Repository.dfy performs them in place.
 */
module Store {
  import opened Wrappers
  import opened Translations

  datatype StoreState = StoreState(rows: seq<Translation>, nextId: int)

  /** The empty store; the first id handed out is 1. */
  const Empty: StoreState := StoreState([], 1)

  /** Every id in `rows` is below `bound`. */
  ghost predicate Below(rows: seq<Translation>, bound: int)
  {
    forall t :: t in rows ==> t.id < bound
  }

  /** Ids strictly increase along `rows`, so no two rows share an id. */
  ghost predicate Increasing(rows: seq<Translation>)
  {
    forall i, j :: 0 <= i < j < |rows| ==> rows[i].id < rows[j].id
  }

  /** The store's invariant: ids are unique, in save order, and all below the next id. */
  ghost predicate Valid(s: StoreState)
  {
    Increasing(s.rows) && Below(s.rows, s.nextId)
  }

  lemma IncreasingInit(rows: seq<Translation>)
    requires Increasing(rows) && |rows| > 0
    ensures Increasing(rows[..|rows| - 1]) && Below(rows[..|rows| - 1], rows[|rows| - 1].id)
  {
  }

  lemma IncreasingSnoc(rows: seq<Translation>, t: Translation)
    requires Increasing(rows) && Below(rows, t.id)
    ensures Increasing(rows + [t])
  {
  }

  /**
   * `save` of a new entity: the store assigns the fresh id `nextId`, appends
   * the record, and returns it with its id populated.
   */
  function Save(s: StoreState, d: Draft): (r: (StoreState, Translation))
    ensures Fields(r.1) == d
    ensures r.0.rows == s.rows + [r.1]
    ensures Below(s.rows, s.nextId) ==> r.1.id !in set t | t in s.rows :: t.id
    ensures s.nextId <= r.1.id < r.0.nextId
  {
    var t := WithId(d, s.nextId);
    (StoreState(s.rows + [t], s.nextId + 1), t)
  }

  /** Saving keeps ids unique, in save order and below the next id. */
  lemma SaveKeepsValid(s: StoreState, d: Draft)
    requires Valid(s)
    ensures Valid(Save(s, d).0)
  {
  }

  /** `findById`: the row with that id, or absent when there is none. */
  function FindById(rows: seq<Translation>, id: int): (r: Option<Translation>)
    ensures r.Some? ==> r.value in rows && r.value.id == id
    ensures r.None? <==> forall t :: t in rows ==> t.id != id
  {
    if rows == [] then None
    else if rows[0].id == id then Some(rows[0])
    else FindById(rows[1..], id)
  }

  /** With unique ids, `findById` of a stored record's id finds that very record. */
  lemma FindByIdFindsRow(rows: seq<Translation>, t: Translation)
    requires Increasing(rows) && t in rows
    ensures FindById(rows, t.id) == Some(t)
  {
  }

  /** `findByTargetLang`: the rows whose target language is `lang`, each
      once and in store order (which, with the store's increasing ids,
      together with the membership clause fixes the result; see
      `SameIncreasingRowsEqual`). */
  function WithTargetLang(rows: seq<Translation>, lang: string): (r: seq<Translation>)
    ensures forall t :: t in r <==> t in rows && t.targetLang == lang
    ensures |r| <= |rows|
    ensures Increasing(rows) ==> Increasing(r)
  {
    if rows == [] then []
    else
      var init, last := rows[..|rows| - 1], rows[|rows| - 1];
      assert rows == init + [last];
      if last.targetLang == lang then WithTargetLang(init, lang) + [last] else WithTargetLang(init, lang)
  }

  /** In an id-ordered list the first row has the least id, and every later row a larger one. */
  lemma IncreasingHead(a: seq<Translation>, t: Translation)
    requires Increasing(a) && a != [] && t in a
    ensures t.id >= a[0].id
    ensures t in a[1..] ==> t.id > a[0].id
  {
  }

  /** Two id-ordered row lists with the same members are the same list: an
      answer that holds exactly the matching rows, in id order, is unique. */
  lemma {:induction false} SameIncreasingRowsEqual(a: seq<Translation>, b: seq<Translation>)
    requires Increasing(a) && Increasing(b)
    requires forall t :: t in a <==> t in b
    ensures a == b
    decreases |a|
  {
    assert a != [] ==> a[0] in b;
    assert b != [] ==> b[0] in a;
    if a != [] && b != [] {
      IncreasingHead(a, b[0]);
      IncreasingHead(b, a[0]);
      assert a == [a[0]] + a[1..] && b == [b[0]] + b[1..];
      assert a[0] == b[0];
      forall t | t in a[1..] ensures t in b[1..] {
        IncreasingHead(a, t);
        assert t in b && t != b[0];
        var j :| 0 <= j < |b| && b[j] == t;
        assert b[1..][j - 1] == t;
      }
      forall t | t in b[1..] ensures t in a[1..] {
        IncreasingHead(b, t);
        assert t in a && t != a[0];
        var j :| 0 <= j < |a| && a[j] == t;
        assert a[1..][j - 1] == t;
      }
      SameIncreasingRowsEqual(a[1..], b[1..]);
    }
  }

  /** `deleteById` keeps every row but those with id `id`, in their order. */
  function WithoutId(rows: seq<Translation>, id: int): (r: seq<Translation>)
    ensures forall t :: t in r <==> t in rows && t.id != id
  {
    if rows == [] then []
    else
      var init, last := rows[..|rows| - 1], rows[|rows| - 1];
      assert rows == init + [last];
      var rest := WithoutId(init, id);
      if last.id == id then rest else rest + [last]
  }

  /** Deleting rows keeps the remaining ids in increasing order. */
  lemma {:induction false} WithoutIdIncreasing(rows: seq<Translation>, id: int)
    requires Increasing(rows)
    ensures Increasing(WithoutId(rows, id))
  {
    if rows != [] {
      var init, last := rows[..|rows| - 1], rows[|rows| - 1];
      IncreasingInit(rows);
      WithoutIdIncreasing(init, id);
      if last.id != id {
        IncreasingSnoc(WithoutId(init, id), last);
      }
    }
  }

  /** `deleteById`: the record with that id is gone; deleting an unknown id changes nothing. */
  function DeleteById(s: StoreState, id: int): (r: StoreState)
    ensures FindById(r.rows, id).None?
    ensures forall t :: t in r.rows <==> t in s.rows && t.id != id
    ensures FindById(s.rows, id).None? ==> r.rows == s.rows
    ensures r.nextId == s.nextId
  {
    if FindById(s.rows, id).None? then WithoutIdUnchanged(s.rows, id); s
    else StoreState(WithoutId(s.rows, id), s.nextId)
  }

  lemma DeleteKeepsValid(s: StoreState, id: int)
    requires Valid(s)
    ensures Valid(DeleteById(s, id))
  {
    WithoutIdIncreasing(s.rows, id);
  }

  lemma {:induction false} WithoutIdUnchanged(rows: seq<Translation>, id: int)
    requires forall t :: t in rows ==> t.id != id
    ensures WithoutId(rows, id) == rows
  {
    if rows != [] {
      var init := rows[..|rows| - 1];
      assert forall t :: t in init ==> t in rows;
      WithoutIdUnchanged(init, id);
      assert rows == init + [rows[|rows| - 1]];
    }
  }
}
