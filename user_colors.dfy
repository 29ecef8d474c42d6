/** The per-host display tags: a host gets a colour the first time one of its products is seen. */
module UserColors {
  import opened Elements
  import opened Wrappers

  /**
   * The tag map after `defineUserColors(product)` for a product of `host`, where `drawn` is the
   * colour the random generator yields on that call.
   */
  function AssignTag(tags: map<string, Color>, host: string, drawn: Color): (r: map<string, Color>)
    ensures r.Keys == tags.Keys + {host}
    ensures forall h :: h in tags ==> h in r && r[h] == tags[h]
    ensures host !in tags ==> r[host] == drawn
  {
    if host in tags then tags else tags[host := drawn]
  }

  /** Assigning twice for one host keeps the first tag, whatever the second draw. */
  lemma AssignTagIdempotent(tags: map<string, Color>, host: string, drawn: Color, again: Color)
    ensures AssignTag(AssignTag(tags, host, drawn), host, again) == AssignTag(tags, host, drawn)
  {
  }

  /** The product carrying its host's tag, as `product.setColor(usersColors.get(host))` leaves it. */
  function Painted(p: Product, tags: map<string, Color>): (q: Product)
    requires p.host in tags
    ensures q.color == Some(tags[p.host])
    ensures q.(color := p.color) == p
  {
    p.(color := Some(tags[p.host]))
  }
}
