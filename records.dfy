/** A Django model instance seen as its attribute dictionary, and the
    `for attr, value in data.items(): setattr(instance, attr, value)` loop that
    several serializers' `update` methods run over it. */
module Records {
  import opened Common

  class Instance {
    var attrs: map<string, Val>

    constructor (initial: map<string, Val>)
      ensures attrs == initial
    {
      attrs := initial;
    }

    /** Sets every supplied attribute and leaves every other one as it was. */
    method SetAttributes(updates: map<string, Val>)
      modifies this
      ensures attrs == old(attrs) + updates
      ensures forall k :: k in updates ==> attrs[k] == updates[k]
      ensures forall k :: k in old(attrs) && k !in updates ==> k in attrs && attrs[k] == old(attrs)[k]
      ensures attrs.Keys == old(attrs).Keys + updates.Keys
    {
      var pending := updates.Keys;
      while pending != {}
        invariant pending <= updates.Keys
        invariant attrs == old(attrs) + map k | k in updates.Keys - pending :: updates[k]
        decreases pending
      {
        var k :| k in pending;
        attrs := attrs[k := updates[k]];
        pending := pending - {k};
      }
      assert updates.Keys - pending == updates.Keys;
      assert updates == map k | k in updates.Keys :: updates[k];
    }
  }
}
