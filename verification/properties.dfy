/** Properties of the facade that relate several calls or pin down its PHP edge cases. */
module TranslatorProperties {
  import opened Wrappers
  import opened Configuration
  import opened Php
  import opened Translator

  /** The resolver succeeds with exactly the book the reference definition selects. */
  lemma ResolveMatchesReference(reg: Registry, bookName: string, book: string)
    requires DistinctBooks(reg)
    ensures ResolveBookName(reg, bookName) == Success(book) <==> Selects(reg, bookName, book)
  {
  }

  /** The resolver fails with exactly the error the reference definition names. */
  lemma ResolveRefusesReference(reg: Registry, bookName: string, e: Error)
    requires DistinctBooks(reg)
    ensures ResolveBookName(reg, bookName) == Failure(e) <==> Refuses(reg, bookName, e)
  {
  }

  /** An empty name ("" or "0") picks the first book in insertion order. */
  lemma EmptyNameSelectsFirstBook(reg: Registry, bookName: string)
    requires DistinctBooks(reg)
    requires IsEmpty(bookName) && |reg| > 0 && !IsIntegerKey(reg[0].book)
    ensures ResolveBookName(reg, bookName) == Success(reg[0].book)
  {
  }

  /** When PHP keeps the first book's key as an integer, the fallback throws a TypeError. */
  lemma IntegerFirstBookBreaksFallback(reg: Registry, bookName: string)
    requires DistinctBooks(reg)
    requires IsEmpty(bookName) && |reg| > 0 && IsIntegerKey(reg[0].book)
    ensures ResolveBookName(reg, bookName) == Failure(ReturnTypeError)
  {
  }

  /** An empty name against an empty registry throws "No configuration available". */
  lemma EmptyRegistryFails(bookName: string)
    requires IsEmpty(bookName)
    ensures ResolveBookName([], bookName) == Failure(NoConfigurationAvailable)
    ensures Message(ResolveBookName([], bookName).error) == "No configuration available"
  {
  }

  /** A non-empty name that is absent, or whose value is null, is not found. */
  lemma UnknownBookFails(reg: Registry, bookName: string)
    requires DistinctBooks(reg)
    requires !IsEmpty(bookName)
    requires !HasBook(reg, bookName) || StoredAs(reg, bookName, None)
    ensures ResolveBookName(reg, bookName) == Failure(BookNotFound(bookName))
    ensures Message(ResolveBookName(reg, bookName).error)
         == "Configuration for book \"" + bookName + "\" not found"
  {
  }

  /** A non-empty name whose value is set resolves to itself, unchanged. */
  lemma PresentBookResolvesToItself(reg: Registry, bookName: string, config: BookConfig)
    requires DistinctBooks(reg)
    requires !IsEmpty(bookName) && StoredAs(reg, bookName, Some(config))
    ensures ResolveBookName(reg, bookName) == Success(bookName)
  {
  }

  /** Whatever is resolved is a key of the registry. */
  lemma ResolvedBookIsRegistered(reg: Registry, bookName: string)
    requires DistinctBooks(reg)
    requires ResolveBookName(reg, bookName).Success?
    ensures HasBook(reg, ResolveBookName(reg, bookName).value)
  {
  }

  /**
   * Resolving a resolved name again gives it back exactly when it is the
   * empty key or its value is set; a fallback onto a null book is the one
   * case where a second resolution fails.
   */
  lemma ResolveIdempotent(reg: Registry, bookName: string)
    requires DistinctBooks(reg)
    requires ResolveBookName(reg, bookName).Success?
    ensures var book := ResolveBookName(reg, bookName).value;
            ResolveBookName(reg, book) == Success(book) <==> (IsEmpty(book) || IsSet(reg, book))
    ensures !IsEmpty(bookName) ==>
              var book := ResolveBookName(reg, bookName).value;
              ResolveBookName(reg, book) == Success(book)
  {
  }

  /** A fallback onto a null book resolves once but not a second time. */
  lemma NullFirstBookIsNotIdempotent()
    ensures ResolveBookName([Entry("a", None)], "") == Success("a")
    ensures ResolveBookName([Entry("a", None)], "a") == Failure(BookNotFound("a"))
  {
  }

  /** A book keyed "0" is never resolved: the name "0" counts as empty, and the key "0" is an integer. */
  lemma BookZeroNeverResolves(reg: Registry, bookName: string)
    requires DistinctBooks(reg)
    ensures ResolveBookName(reg, bookName) != Success("0")
  {
  }

  /** Books `a` then `b`: no name gives `a`, and `c` is not found. */
  lemma TwoBookExample(a: BookConfig, b: BookConfig)
    ensures ResolveBookName([Entry("a", Some(a)), Entry("b", Some(b))], "") == Success("a")
    ensures ResolveBookName([Entry("a", Some(a)), Entry("b", Some(b))], "b") == Success("b")
    ensures ResolveBookName([Entry("a", Some(a)), Entry("b", Some(b))], "c") == Failure(BookNotFound("c"))
  {
    var reg := [Entry("a", Some(a)), Entry("b", Some(b))];
    assert !IsIntegerKey("a");
    assert reg[1].book == "b";
  }

  /** A first book named "2024" is reachable by its name but not through the fallback. */
  lemma NumericFirstBookExample(c: BookConfig)
    ensures ResolveBookName([Entry("2024", Some(c))], "") == Failure(ReturnTypeError)
    ensures ResolveBookName([Entry("2024", Some(c))], "2024") == Success("2024")
  {
    var s := "2024";
    assert Magnitude(s) == s;
    assert s[..3] == "202" && s[..3][..2] == "20" && s[..3][..2][..1] == "2" && s[..3][..2][..1][..0] == [];
    assert DigitsValue("2") == 2;
    assert DigitsValue("20") == 20;
    assert DigitsValue("202") == 202;
    assert DigitsValue(s) == 2024;
    assert IsIntegerKey(s);
    assert [Entry("2024", Some(c))][0].book == s;
  }

  /**
   * The wrapped registry is a well-formed registry holding only the resolved
   * book: resolving that book in it by name, or (when PHP keeps its key a
   * string) by the fallback, selects it again.
   */
  lemma WrappedRegistryResolvesToSameBook(reg: Registry, bookName: string)
    requires DistinctBooks(reg)
    requires ResolveBookName(reg, bookName).Success?
    ensures var book := ResolveBookName(reg, bookName).value;
            var wrapped := WrapConfigurationForProcessor(reg, book);
            && DistinctBooks(wrapped)
            && (!IsIntegerKey(book) ==> ResolveBookName(wrapped, "") == Success(book))
            && (IsSet(reg, book) && !IsEmpty(book) ==> ResolveBookName(wrapped, book) == Success(book))
  {
  }

  /** Both entry points resolve the same way: they fail alike, or hand over the same registry. */
  lemma SheetAndBookResolveAlike(reg: Registry, sheetName: string, bookName: string)
    requires DistinctBooks(reg)
    ensures ProcessSheet(reg, sheetName, bookName).Failure? <==> ProcessBook(reg, bookName).Failure?
    ensures ProcessSheet(reg, sheetName, bookName).Failure? ==>
              ProcessSheet(reg, sheetName, bookName).error == ProcessBook(reg, bookName).error
    ensures ProcessSheet(reg, sheetName, bookName).Success? ==>
              ProcessSheet(reg, sheetName, bookName).value.configuration
              == ProcessBook(reg, bookName).value.configuration
  {
  }

  /** A resolution error means no processor is run: the entry points fail exactly when resolution does. */
  lemma NoProcessorOnResolutionError(reg: Registry, sheetName: string, bookName: string)
    requires DistinctBooks(reg)
    ensures ProcessSheet(reg, sheetName, bookName).Failure? <==> ResolveBookName(reg, bookName).Failure?
    ensures ProcessBook(reg, bookName).Failure? <==> ResolveBookName(reg, bookName).Failure?
  {
  }

  /** Different exceptions carry different messages. */
  lemma {:induction false} MessageInjective(e1: Error, e2: Error)
    requires Message(e1) == Message(e2)
    ensures e1 == e2
  {
    if e1.BookNotFound? && e2.BookNotFound? {
      var p := "Configuration for book \"";
      assert Message(e1)[|p|..|p| + |e1.book|] == e1.book;
    } else if e1.BookNotFound? && e2.ReturnTypeError? {
      TypeErrorMessageStartsWithA();
    } else if e1.ReturnTypeError? && e2.BookNotFound? {
      TypeErrorMessageStartsWithA();
    }
  }

  lemma TypeErrorMessageStartsWithA()
    ensures Message(ReturnTypeError)[0] == 'A'
  {
  }
}
