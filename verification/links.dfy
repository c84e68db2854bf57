/** Booking links: the shareable slug through which visitors reach an owner. */
module Links {
  import opened Results

  datatype BookingLink = BookingLink(id: nat, slug: string, owner: nat, isActive: bool)

  /** A link a visitor may use under `slug`. */
  predicate Serves(l: BookingLink, slug: string)
  {
    l.slug == slug && l.isActive
  }

  /** The slug column is unique. */
  ghost predicate SlugsUnique(links: seq<BookingLink>)
  {
    forall i, j :: 0 <= i < |links| && 0 <= j < |links| && i != j ==> links[i].slug != links[j].slug
  }

  /** `findOneBySlug`: the active link with that slug, or NotFound when there is none
      (an unknown slug and an inactive link look the same). */
  function FindOneBySlug(links: seq<BookingLink>, slug: string): (r: Result<BookingLink>)
    ensures r.Ok? ==> r.value in links && Serves(r.value, slug)
    ensures r.Err? <==> forall l :: l in links ==> !Serves(l, slug)
    ensures r.Err? ==> r.error == LinkNotFound
  {
    if |links| == 0 then Err(LinkNotFound)
    else if Serves(links[0], slug) then Ok(links[0])
    else
      var r := FindOneBySlug(links[1..], slug);
      assert forall l :: l in links ==> l == links[0] || l in links[1..];
      r
  }

  /** With unique slugs the lookup returns the one active link that carries the slug. */
  lemma FindOneBySlugFindsIt(links: seq<BookingLink>, l: BookingLink)
    requires SlugsUnique(links) && l in links && l.isActive
    ensures FindOneBySlug(links, l.slug) == Ok(l)
  {
    var r := FindOneBySlug(links, l.slug);
    var i :| 0 <= i < |links| && links[i] == l;
    var j :| 0 <= j < |links| && links[j] == r.value;
    assert links[i].slug == links[j].slug;
  }
}
