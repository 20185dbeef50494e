/** The repository object the service holds: the store's rows and id counter as fields. */
module Repository {
  import opened Wrappers
  import opened Translations
  import Store

  class TranslationRepository {
    var rows: seq<Translation>
    var nextId: int

    /** The store this object currently holds. */
    function State(): Store.StoreState
      reads this
    {
      Store.StoreState(rows, nextId)
    }

    ghost predicate Valid()
      reads this
    {
      Store.Valid(State())
    }

    constructor ()
      ensures Valid() && State() == Store.Empty
    {
      rows, nextId := [], 1;
    }

    /** `save` of a new entity: appends it under a fresh id and returns the stored record. */
    method Save(d: Draft) returns (t: Translation)
      requires Valid()
      modifies this
      ensures Valid()
      ensures (State(), t) == Store.Save(old(State()), d)
    {
      Store.SaveKeepsValid(State(), d);
      t := WithId(d, nextId);
      rows, nextId := rows + [t], nextId + 1;
    }

    /** `findAll`: every stored record, in store order. */
    method FindAll() returns (r: seq<Translation>)
      ensures r == rows
    {
      r := rows;
    }

    /** `findById`: the record with that id, or absent. */
    method FindById(id: int) returns (r: Option<Translation>)
      ensures r == Store.FindById(rows, id)
    {
      r := Store.FindById(rows, id);
    }

    /** `findByTargetLang`: the records with that target language, in store order. */
    method FindByTargetLang(lang: string) returns (r: seq<Translation>)
      ensures r == Store.WithTargetLang(rows, lang)
    {
      r := Store.WithTargetLang(rows, lang);
    }

    /** `deleteById`: removes the record with that id, if any. */
    method DeleteById(id: int)
      requires Valid()
      modifies this
      ensures Valid()
      ensures State() == Store.DeleteById(old(State()), id)
    {
      Store.DeleteKeepsValid(State(), id);
      var s := Store.DeleteById(State(), id);
      rows, nextId := s.rows, s.nextId;
    }
  }
}
