/** The exceptions of the synchronisation command that end a run. */
module Errors {

  datatype ImportError =
    /** `Country.DoesNotExist` raised by the per-run country lookup. */
    | CountryNotFound(code2: string)
    /** `ValueError` from unpacking a region code that does not hold exactly one dot. */
    | MalformedRegionCode(code: string)
    /** `urlopen` or its `last-modified` / `content-length` headers failed. */
    | NetworkError(url: string)
    /** The archive could not be opened or lacks the named entry. */
    | ExtractionError(archive: string, entry: string)
    /** The data file to import could not be opened. */
    | MissingFile(name: string)
}
