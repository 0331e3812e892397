/** The entities of the address search: one postal record, the three search
    modes, the five sort orders and the one search error. */
module Records {

  datatype Option<+T> = None | Some(value: T)

  /** One entry of the record store: postal code, address text and its
      phonetic reading. Duplicates are allowed and kept. */
  datatype AddressData = AddressData(zipCode: string, address: string, furigana: string)

  datatype SearchMode = ZipCode | Address | Furigana

  /** `Default` orders by postal code; the other four by address or reading. */
  datatype SortOrder = Default | AddressAsc | AddressDesc | FuriganaAsc | FuriganaDesc

  /** The message shown when a completed search matched nothing. */
  datatype SearchError = NoMatches
}
