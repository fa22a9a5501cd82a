/** `CategoryServiceImpl`: the category dictionary, whose names are
    unique. Each operation is one transaction: an error leaves the table
    as it was. */
module CategoryService {
  import opened Common
  import opened Model
  import opened Tables

  /** `addCategory`: a name already in use is a Conflict; otherwise one
      category is inserted under the sequence's next id. */
  method AddCategory(db: Db, name: string) returns (r: Result<Category>)
    requires db.Valid()
    modifies db`categories, db`categorySeq
    ensures db.Valid()
    ensures r.Err? <==> NameTaken(old(db.categories), name)
    ensures r.Err? ==>
      && r.error == Conflict
      && db.categories == old(db.categories) && db.categorySeq == old(db.categorySeq)
    ensures r.Ok? ==>
      && r.value == Category(old(db.categorySeq), name)
      && r.value.id !in old(db.categories)
      && db.categories == old(db.categories)[r.value.id := r.value]
      && db.categorySeq == old(db.categorySeq) + 1
  {
    if NameTaken(db.categories, name) {
      return Err(Conflict);
    }
    var category := Category(db.categorySeq, name);
    db.categories := db.categories[category.id := category];
    db.categorySeq := db.categorySeq + 1;
    return Ok(category);
  }

  /** `removeCategory`: delete by id; an absent id is no error. */
  method RemoveCategory(db: Db, catId: int)
    requires db.Valid()
    modifies db`categories
    ensures db.Valid()
    ensures db.categories == old(db.categories) - {catId}
  {
    db.categories := db.categories - {catId};
  }

  /** `updateCategory`: an absent id is NotFound, checked first; a name
      held by any category, the renamed one included, is a Conflict;
      otherwise only that category's name changes. */
  method UpdateCategory(db: Db, catId: int, name: string) returns (r: Result<Category>)
    requires db.Valid()
    modifies db`categories
    ensures db.Valid()
    ensures catId !in old(db.categories) ==> r == Err(NotFound)
    ensures catId in old(db.categories) && NameTaken(old(db.categories), name) ==> r == Err(Conflict)
    ensures r.Ok? <==> catId in old(db.categories) && !NameTaken(old(db.categories), name)
    ensures r.Err? ==> db.categories == old(db.categories)
    ensures r.Ok? ==>
      && r.value == Category(catId, name)
      && db.categories == old(db.categories)[catId := r.value]
  {
    if catId !in db.categories {
      return Err(NotFound);
    }
    var category := db.categories[catId];
    if NameTaken(db.categories, name) {
      return Err(Conflict);
    }
    category := category.(name := name);
    db.categories := db.categories[catId := category];
    return Ok(category);
  }

  /** `getCategory`: the stored category, or NotFound. */
  function GetCategory(db: Db, catId: int): (r: Result<Category>)
    reads db
    requires db.Valid()
    ensures r.Ok? <==> catId in db.categories
    ensures r.Err? ==> r.error == NotFound
    ensures r.Ok? ==> r.value in db.categories.Values && r.value.id == catId
  {
    if catId in db.categories then Ok(db.categories[catId]) else Err(NotFound)
  }
}
