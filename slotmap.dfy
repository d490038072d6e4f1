/** The slot-value map `build_mapping` returns: a Python dict from a
    content-control tag to the text that goes into it. */
module SlotMaps {

  /** `order` lists the keys in the order Python's `dict.items()` walks them
      (first insertion); `values` holds the current value of each key. */
  datatype SlotMap = SlotMap(order: seq<string>, values: map<string, string>)

  /** The empty dict `{}`. */
  const Empty: SlotMap := SlotMap([], map[])

  /** The dict invariant: every key appears exactly once in the order. */
  ghost predicate Valid(m: SlotMap) {
    && (forall i, j | 0 <= i < j < |m.order| :: m.order[i] != m.order[j])
    && (forall k :: k in m.values <==> k in m.order)
  }

  /** Python's `d[k] = v`: the value is replaced; a new key joins the end of
      the iteration order, an existing key keeps its place. */
  function Put(m: SlotMap, k: string, v: string): (r: SlotMap)
    requires Valid(m)
    ensures Valid(r)
    ensures r.values == m.values[k := v]
    ensures k in m.values ==> r.order == m.order
    ensures k !in m.values ==> r.order == m.order + [k]
  {
    if k in m.values then SlotMap(m.order, m.values[k := v])
    else SlotMap(m.order + [k], m.values[k := v])
  }
}
