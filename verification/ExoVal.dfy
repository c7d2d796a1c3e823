/** The values of the store as the C code holds them (ds/utilities.h:21-24): a string, or the object of a
    bitmap or of a sorted set. */
module ExoVal {
  import opened Bitmap
  import opened SkipList
  import opened Store

  datatype ExoVal =
    | StrVal(str: string)
    | BitsVal(bits: BitmapNode)
    | SetVal(list: SkipList)

  ghost predicate SameKind(v: ExoVal, shows: Value) {
    match v
    case StrVal(str) => shows == Text(str)
    case BitsVal(_) => shows.Bits?
    case SetVal(_) => shows.Scores?
  }

  /** The object behind v is well-formed, stands for the value `shows`, and is made of objects of the
      region. */
  ghost predicate Represents(v: ExoVal, shows: Value, region: set<object>)
    reads region
  {
    match v
    case StrVal(str) => shows == Text(str)
    case BitsVal(bits) => bits in region && bits.mem in region && bits.Valid() && shows == Bits(bits.Words())
    case SetVal(list) => list in region && list.nodes <= region && list.Valid() && shows == Scores(list.entries)
  }
}
