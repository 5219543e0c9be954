/** Rows and renderings shared by the two caches. */
module Models {

  datatype Currency = Currency(id: int, code: string, fullName: string, sign: string)

  datatype ExchangeRate = ExchangeRate(id: int, base: int, target: int, rate: string)
  {
    function Pair(): (int, int) { (base, target) }
  }

  /** A published text: the empty string, JSON `null`, or a JSON list of entries. */
  datatype Rendering<E> = EmptyText | NullText | Listed(entries: seq<E>)
}
