/**
 * The span-table page's attribute box: the same sorted keys and string filter as the trace
 * page's box, but never cut: every string attribute is listed.
 */
module ComponentsSpanAttributes {
  import opened Schema
  import SA = SpanAttributes

  class SpanAttributeModel {
    var width: int
    var attributes: Attributes

    /** `CreateSpanAttributeModel`: zero width and no attributes. */
    constructor ()
      ensures width == 0 && attributes == map[]
    {
      width := 0;
      attributes := map[];
    }

    /** `View`: the string attributes in ascending key order, all of them. */
    method View() returns (entries: seq<SA.AttributeEntry>)
      ensures exists keys :: (
        && SA.KeysInOrder(keys, attributes)
        && (forall i :: 0 <= i < |keys| ==> keys[i] in attributes)
        && entries == SA.StringEntriesOf(keys, attributes))
      ensures forall k, v :: SA.AttributeEntry(k, v) in entries <==> k in attributes && attributes[k] == Str(v)
      ensures SA.EntriesAscending(entries)
    {
      var keys := SA.SortedKeys(attributes);
      SA.EntriesOfMap(keys, attributes);
      entries := SA.StringEntries(keys, attributes);
    }
  }
}
