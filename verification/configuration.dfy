/**
 * The configuration registry the facade is constructed with: an
 * insertion-ordered PHP array from book name to that book's settings.
 */
module Configuration {
  import opened Wrappers

  datatype ProviderSettings = ProviderSettings(name: string, sourceResource: string)

  datatype ExporterSettings = ExporterSettings(format: string, prefix: string, destinationFolder: string)

  datatype SharedSettings = SharedSettings(defaultLocale: string, nameSeparator: string)

  /** The settings of one book: where to read it from, how to write it, what it shares. */
  datatype BookConfig = BookConfig(provider: ProviderSettings, exporter: ExporterSettings, shared: SharedSettings)

  /** One `book => settings` pair of the registry; a None value is PHP null. */
  datatype Entry = Entry(book: string, config: Option<BookConfig>)

  /** The registry in insertion order. */
  type Registry = seq<Entry>

  /** A PHP array never holds the same key twice. */
  predicate DistinctBooks(reg: Registry)
  {
    forall i, j :: 0 <= i < j < |reg| ==> reg[i].book != reg[j].book
  }

  /** `array_key_exists($book, $reg)`. */
  predicate HasBook(reg: Registry, book: string)
  {
    exists i :: 0 <= i < |reg| && reg[i].book == book
  }

  /** `isset($reg[$book])`: the key is present and its value is not null. */
  predicate IsSet(reg: Registry, book: string)
  {
    exists i :: 0 <= i < |reg| && reg[i].book == book && reg[i].config.Some?
  }

  /** The registry stores `config` under `book`. */
  predicate StoredAs(reg: Registry, book: string, config: Option<BookConfig>)
  {
    exists i :: 0 <= i < |reg| && reg[i].book == book && reg[i].config == config
  }

  /** The position of `book` in the registry: the first entry carrying that key. */
  function IndexOf(reg: Registry, book: string): (r: Option<nat>)
    ensures r.Some? ==> r.value < |reg| && reg[r.value].book == book
    ensures r.Some? ==> forall j :: 0 <= j < r.value ==> reg[j].book != book
    ensures r.None? ==> forall i :: 0 <= i < |reg| ==> reg[i].book != book
  {
    if reg == [] then None
    else if reg[0].book == book then Some(0)
    else match IndexOf(reg[1..], book)
      case None => None
      case Some(j) => Some(j + 1)
  }

  /**
   * Reading `$reg[$book]`: Some(value) when the key is present (the value
   * may itself be null), None when it is absent.
   */
  function Get(reg: Registry, book: string): (r: Option<Option<BookConfig>>)
    requires DistinctBooks(reg)
    ensures r.Some? <==> HasBook(reg, book)
    ensures forall i :: 0 <= i < |reg| && reg[i].book == book ==> r == Some(reg[i].config)
  {
    match IndexOf(reg, book)
    case None => None
    case Some(i) => Some(reg[i].config)
  }
}
