/**
 * The parser's exceptions and the three ways a parser mode can end.
 * `src/exceptions.py` declares two empty exception classes; the model keeps
 * them as constructors, together with the Python runtime errors that the
 * modelled code can raise on a malformed page.
 */
module Exceptions {

  datatype ParserError =
    /** `ParserFindTagException` from `find_tag`: no tag `tag` on the page. */
    | FindTag(tag: string)
    /** `ParserFindTagException` from `find_siblings`: no sibling element. */
    | FindSibling
    /** `ParserFindUrlException`: no `<ul>` mentions "All versions". */
    | FindUrl
    /** The `TypeError` of a missing `<a>` or the `KeyError` of a missing `href`. */
    | MissingHref

  /**
   * How a parser mode ends: it returns `None` because the first fetch failed,
   * it raises, or it returns its result table.
   */
  datatype Run<+T> = NoResponse | Raised(error: ParserError) | Returned(value: T)
}
