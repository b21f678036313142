/** The demonstration program's sequence of calls and the outputs it expects. */
module Demo {
  import opened CacheSpec
  import opened Caching

  /**
   * Two puts, three gets, a clear and one more get on a fresh cache: the
   * gets see "A", "B", nothing, and nothing after the clear.
   */
  method Scenario() returns (first: Option<string>, second: Option<string>, missing: Option<string>, afterClear: Option<string>)
    ensures first == Some("A") && second == Some("B")
    ensures missing == None && afterClear == None
  {
    var cache := new Cache<int, string>();
    cache.Put(1, "A");
    cache.Put(2, "B");
    first := cache.Get(1);
    second := cache.Get(2);
    missing := cache.Get(3);
    cache.Clear();
    afterClear := cache.Get(1);
  }
}
