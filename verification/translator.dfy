/**
 * The SpreadsheetTranslator facade: it picks one book out of the registry,
 * narrows the registry to that book, and hands the narrowed registry to a
 * sheet or book processor. The processors are opaque here; an operation's
 * result records the call it makes to one.
 */
module Translator {
  import opened Wrappers
  import opened Configuration
  import opened Php

  /** What the facade throws. */
  datatype Error =
      /** An `\Exception`: the registry is empty and no name was given. */
    | NoConfigurationAvailable
      /** An `\Exception`: the named book is absent or its value is null. */
    | BookNotFound(book: string)
      /**
       * A `\TypeError`, not an `\Exception`, so `catch (\Exception $e)` does not stop it:
       * under strict types the fallback returned an integer key where a string is declared.
       */
    | ReturnTypeError

  /** The message carried by the thrown exception. */
  function Message(e: Error): string
  {
    match e
    case NoConfigurationAvailable => "No configuration available"
    case BookNotFound(b) => "Configuration for book \"" + b + "\" not found"
    case ReturnTypeError =>
      "Atico\\SpreadsheetTranslator\\Core"
      + "\\SpreadsheetTranslator::resolveBookName(): "
      + "Return value must be of type string, int returned"
  }

  /** `new SheetProcessor($configuration)` followed by `->processSheet($sheetName)`. */
  datatype SheetProcessorRun = SheetProcessorRun(configuration: Registry, sheetName: string)

  /** `new BookProcessor($configuration)` followed by `->processBook()`. */
  datatype BookProcessorRun = BookProcessorRun(configuration: Registry)

  /**
   * Reference definition of the book a request selects: with no name, the
   * first book in insertion order (provided PHP keeps its key a string);
   * with a name, that name, provided its value is set.
   */
  predicate Selects(reg: Registry, bookName: string, book: string)
  {
    if IsEmpty(bookName) then |reg| > 0 && book == reg[0].book && !IsIntegerKey(book)
    else book == bookName && IsSet(reg, bookName)
  }

  /** Reference definition of the error a request is refused with. */
  predicate Refuses(reg: Registry, bookName: string, e: Error)
  {
    if IsEmpty(bookName) then
      || (|reg| == 0 && e == NoConfigurationAvailable)
      || (|reg| > 0 && IsIntegerKey(reg[0].book) && e == ReturnTypeError)
    else !IsSet(reg, bookName) && e == BookNotFound(bookName)
  }

  /** The registry handed to a processor: exactly the selected book with its stored settings. */
  predicate HandsOver(reg: Registry, bookName: string, wrapped: Registry)
  {
    && |wrapped| == 1
    && Selects(reg, bookName, wrapped[0].book)
    && StoredAs(reg, wrapped[0].book, wrapped[0].config)
  }

  /** `resolveBookName`: the book a request names, or the exception it throws. */
  function ResolveBookName(configuration: Registry, bookName: string): (r: Result<string, Error>)
    requires DistinctBooks(configuration)
    ensures r.Success? ==> Selects(configuration, bookName, r.value)
    ensures r.Failure? ==> Refuses(configuration, bookName, r.error)
  {
    if IsEmpty(bookName) then
      if |configuration| == 0 then Failure(NoConfigurationAvailable)
      else if IsIntegerKey(configuration[0].book) then Failure(ReturnTypeError)
      else Success(configuration[0].book)
    else
      match Get(configuration, bookName)
      case Some(Some(_)) => Success(bookName)
      case _ => Failure(BookNotFound(bookName))
  }

  /** `wrapConfigurationForProcessor`: the one-entry array `[book => settings]`. */
  function WrapConfigurationForProcessor(configuration: Registry, book: string): (wrapped: Registry)
    requires DistinctBooks(configuration)
    ensures |wrapped| == 1 && wrapped[0].book == book
    ensures forall i :: 0 <= i < |configuration| && configuration[i].book == book ==>
              wrapped[0].config == configuration[i].config
    ensures !HasBook(configuration, book) ==> wrapped[0].config == None
  {
    var config := match Get(configuration, book) case Some(v) => v case None => None;
    [Entry(book, config)]
  }

  /** `processSheet`: resolve, wrap, then run a sheet processor on the wrapped registry. */
  function ProcessSheet(configuration: Registry, sheetName: string, bookName: string)
    : (r: Result<SheetProcessorRun, Error>)
    requires DistinctBooks(configuration)
    ensures r.Failure? ==> Refuses(configuration, bookName, r.error)
    ensures r.Success? ==> HandsOver(configuration, bookName, r.value.configuration)
    ensures r.Success? ==> r.value.sheetName == sheetName
  {
    match ResolveBookName(configuration, bookName)
    case Failure(e) => Failure(e)
    case Success(book) => Success(SheetProcessorRun(WrapConfigurationForProcessor(configuration, book), sheetName))
  }

  /** `processBook`: resolve, wrap, then run a book processor on the wrapped registry. */
  function ProcessBook(configuration: Registry, bookName: string): (r: Result<BookProcessorRun, Error>)
    requires DistinctBooks(configuration)
    ensures r.Failure? ==> Refuses(configuration, bookName, r.error)
    ensures r.Success? ==> HandsOver(configuration, bookName, r.value.configuration)
  {
    match ResolveBookName(configuration, bookName)
    case Failure(e) => Failure(e)
    case Success(book) => Success(BookProcessorRun(WrapConfigurationForProcessor(configuration, book)))
  }
}
