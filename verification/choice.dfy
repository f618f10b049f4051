/** Picking an arbitrary element of a finite set: the order in which the source
    walks a dictionary's keys, which no result depends on. */
module Choice {

  method Pick<T>(s: set<T>) returns (x: T)
    requires s != {}
    ensures x in s
  {
    // the existence the choice below needs is not found without this hint
    assert exists y :: y in s;
    x :| x in s;
  }
}
