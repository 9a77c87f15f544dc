# Books, quotes and partners ETL: a Dafny model of the record-processing core

The pipeline scrapes a book catalogue and a quotes site and reads a spreadsheet
of partner bookshops. It cleans the three datasets, writes each cleaned dataset
as a "silver" CSV file and loads books and quotes into "gold" PostgreSQL tables.
A separate developer script installs git hooks from a directory of versioned
hook scripts.

This project models the pure rules of that pipeline as Dafny functions over
immutable datatypes, and proves what the rules promise:

- `QuotesTransformer` (`transform_quotes`): trimming, the emptiness filter and
  first-wins deduplication on the trimmed (text, author) pair.
- `BooksTransformer` (`_parse_gbp`, `transform_books`): extraction of the first
  number of a price text, conversion to euro cents with round-half-even, and
  the title, category, rating and price filters.
- `PartnersCleaner` (`_hash_contact`, `transform_partners_rgpd`): the
  shop-name/address filter and the replacement of the contact fields by a
  salted hash.
- `PartnersExcel` (`read_partners_excel`): the missing-file and
  missing-column errors, the dropping of blank rows, and the rows as records.
- `SilverWriter` (`write_silver_csv`): the output path, the sorted union of the
  row keys as header, one CSV record per row, and the empty file for no rows.
  The file system is a map from path to content.
- `PostgresLoader` (`load_books`, `load_quotes`): the gold tables as an
  in-memory state. It covers truncation with restarted identities, the sorted
  distinct author insert that skips existing names, one quote row per input row,
  and tag pairs stored as a set.
- `BooksScraper` (`_download_image` and the row fields of `scrape_books`): the
  object key `prefix/md5(url)ext`, the upload that is skipped when the key
  exists, failures that return None, and the rating, availability and image
  fields of a row.
- `GitSetupHook` (`is_valid_hook_filename`,
  `check_my_hook_script_files_in_my_hook_dir`, `get_valid_versions_data`): the
  hook-name grammar, the four-way classification of a directory listing, the
  priority of the errors, and the version table.

Four helper modules carry the Python and library behaviour the rules rely on:

- `Base`: `Option` and `Result`.
- `Text`: `str.strip()` with Python's white-space set, `str.strip("/")`,
  substring search, code-point string order, and `sorted(set(...))`.
- `Paths`: POSIX `os.path.join` and `os.path.splitext`.
- `Csv`: the "excel" dialect writer of Python's `csv` module (RFC 4180 quoting,
  CR LF line ends) and a reader. A lemma proves that the reader undoes the writer.

Hashes (MD5, SHA-256), HTTP fetches, upload success, environment variables and
file reads are parameters of the functions that use them.

The code and its design description disagree on one point. The description
says an empty input returns 0 without touching the tables. The code truncates
first and only then tests for an empty input (`src/loaders/postgres_loader.py`
lines 5-9 and 35-39). The model follows the code; `PostgresLoader.LoadQuotesEmpty`
and `PostgresLoader.LoadBooks` state this.

## Model

| member | source | states |
|---|---|---|
| Text.StripIsStripped | src/transformers/quotes_transformer.py:6-7 | the result of `strip()` neither starts nor ends with white space |
| Text.StrippedFixed | src/transformers/quotes_transformer.py:6-7 | `strip()` leaves an already stripped string unchanged, so stripping is idempotent |
| Text.StripEmptyIff | src/transformers/quotes_transformer.py:10-11 | a stripped value is empty exactly when every character of the raw value is white space |
| Text.StripBy | src/extractors/books_scraper.py:36 | `strip(chars)` returns a slice of its input; everything cut from either end is in the set, and the result neither starts nor ends with a character of the set |
| Text.Contains | src/extractors/books_scraper.py:96 | `sub in s` holds exactly when `sub` occurs in `s` at some index |
| Text.InsertSorted | src/loaders/postgres_loader.py:42 | inserting into a strictly sorted list keeps it strictly sorted and adds exactly the new element |
| Text.SortedDistinct | src/loaders/postgres_loader.py:42 | `sorted(set(xs))` is strictly sorted and holds exactly the elements of `xs` |
| Text.StrictlySortedUnique | src/loaders/silver_writer.py:37 | two strictly sorted lists with the same elements are equal, so the sorted header is determined by the key set |
| Text.LessTransitive | src/loaders/silver_writer.py:37 | the string order `sorted` uses is transitive |
| Text.LessTotal | src/loaders/silver_writer.py:37 | of two different strings one is below the other |
| Text.VisibleAsciiNotSpace | src/transformers/quotes_transformer.py:6-7 | no printable ASCII character other than the space is removed by `strip()` |
| Paths.PathJoin | src/loaders/silver_writer.py:25-28 | `os.path.join` returns an absolute second part unchanged; otherwise the result starts with the first part and ends with the second, with one `/` between them when the first part does not end in `/` |
| Paths.PathJoinAppend | scripts-dev-env-only/src/git_setup_hook.py:193-194 | joining `f + s` equals joining `f` and then appending `s`, when `f + s` is relative |
| Paths.RFind | src/extractors/books_scraper.py:33 | the index found holds the character and no later index does; -1 means the character does not occur |
| Paths.SplitExt | src/extractors/books_scraper.py:33 | the extension is a suffix of the last path component that starts at its last dot and has a non-dot before it; when empty, every dot of the component has only dots before it |
| Csv.ReadRecordEncode | src/loaders/silver_writer.py:39-42 | reading one written record gives back its fields and leaves the following text untouched, the one-empty-field record included |
| Csv.ReadDocumentRoundTrip | src/loaders/silver_writer.py:39-42 | reading a written CSV document gives back exactly its records |
| Csv.ReadFieldQuoted | src/loaders/silver_writer.py:40-42 | a field written with minimal quoting is read back as the same text |
| Csv.DocumentAppend | src/loaders/silver_writer.py:41-42 | writing two record lists one after the other gives the concatenation of the two documents |
| Csv.EncodeComma | src/loaders/silver_writer.py:40-42 | a field holding a comma is written between double quotes |
| Csv.EncodeEmpty | src/loaders/silver_writer.py:40-42 | a record with one empty field is written as `""`, distinct from the empty record |
| QuotesTransformer.Prepare | src/transformers/quotes_transformer.py:6-8 | text and author come out trimmed, and each is empty exactly when the raw value was missing or all white space |
| QuotesTransformer.Prepared | src/transformers/quotes_transformer.py:5-8 | one prepared candidate per row, in row order |
| QuotesTransformer.PreparedAppend | src/transformers/quotes_transformer.py:5-8 | preparing a concatenation gives the concatenation of the prepared halves |
| QuotesTransformer.DedupSound | src/transformers/quotes_transformer.py:10-24 | every record emitted is one of the candidates with text and author and a key not seen before; no key is emitted twice; the keys emitted are exactly the keys passing the test minus those seen |
| QuotesTransformer.TransformQuotes | src/transformers/quotes_transformer.py:1-28 | the output is never longer than the input, every record has trimmed non-empty text and author, no (text, author) pair occurs twice, and the pairs are exactly those of the rows passing the emptiness test |
| QuotesTransformer.DedupAppend | src/transformers/quotes_transformer.py:13-24 | deduplicating `a + b` gives the result for `a` followed by what `b` adds beyond the keys `a` contributed |
| QuotesTransformer.TransformQuotesAppend | src/transformers/quotes_transformer.py:5-24 | the output for a prefix is never displaced by later rows; later rows only add pairs the prefix did not have |
| QuotesTransformer.KeptKeysMember | src/transformers/quotes_transformer.py:10-13 | a key is among the kept keys exactly when some candidate with text and author has it |
| QuotesTransformer.FirstOccurrenceKept | src/transformers/quotes_transformer.py:13-24 | the first row of every trimmed (text, author) pair that passes the emptiness test is emitted, trimmed, with its own tags |
| QuotesTransformer.OutputIsFirstOccurrence | src/transformers/quotes_transformer.py:13-24 | every emitted record is the trimmed first occurrence of its pair, so a later duplicate is never the one kept |
| QuotesTransformer.FirstWithKey | src/transformers/quotes_transformer.py:13-16 | given any row with a pair, there is an earliest row with that pair that passes the emptiness test |
| QuotesTransformer.PrepareAsRaw | src/transformers/quotes_transformer.py:6-8 | a well-formed output record read back as a row prepares to itself |
| QuotesTransformer.DedupOfDistinct | src/transformers/quotes_transformer.py:13-16 | deduplication leaves a list of non-empty records with distinct unseen keys unchanged |
| QuotesTransformer.TransformQuotesIdempotent | src/transformers/quotes_transformer.py:5-24 | running the transform on its own output returns that output unchanged |
| QuotesTransformer.StripPadded | src/transformers/quotes_transformer.py:6-7 | a visible character with one space before or after it strips to itself |
| QuotesTransformer.TrimmedDuplicatesCollapse | src/transformers/quotes_transformer.py:6-16 | two rows whose text and author strip to the same non-empty values give one record, that of the first row with its tags |
| QuotesTransformer.DedupSameKey | src/transformers/quotes_transformer.py:13-16 | of two candidates with one key, only the first is emitted |
| BooksTransformer.DigitRun | src/transformers/books_transformer.py:12 | the run of digits found at the front is maximal |
| BooksTransformer.ScanSkipsNonDigits | src/transformers/books_transformer.py:12-13 | the search skips any digit-free prefix |
| BooksTransformer.TokenValueDecimal | src/transformers/books_transformer.py:12-13 | digits, a separator and digits, followed by a non-digit, give the decimal value `whole.frac` |
| BooksTransformer.TokenValueWhole | src/transformers/books_transformer.py:12-13 | digits not followed by a digit or a separator-and-digit give their whole value |
| BooksTransformer.ParseGbpDecimal | src/transformers/books_transformer.py:12-13 | for any digit-free prefix, `_parse_gbp` of `prefix + whole + sep + frac + suffix` is `whole.frac`, whether `sep` is `.` or `,` |
| BooksTransformer.ParseGbpWhole | src/transformers/books_transformer.py:12-13 | with no fraction the parsed value is the whole number |
| BooksTransformer.ParseGbpNoDigits | src/transformers/books_transformer.py:9-13 | an input without any digit, the empty one included, parses to 0 |
| BooksTransformer.ParseGbpPound | src/transformers/books_transformer.py:4-13 | `£45.17` parses to 45.17 |
| BooksTransformer.ParseGbpMisdecoded | src/transformers/books_transformer.py:4-13 | `Â£45.17` parses to 45.17 too |
| BooksTransformer.RoundCents | src/transformers/books_transformer.py:31 | the cents are within half a cent of the exact amount, and an exact tie goes to the even neighbour |
| BooksTransformer.RoundCentsPositive | src/transformers/books_transformer.py:31-33 | a positive rounded amount needs at least half a cent, and any amount above half a cent rounds to a positive one |
| BooksTransformer.ConvertBook | src/transformers/books_transformer.py:19-45 | a row is kept exactly when trimmed title and category are non-empty, the rating (missing read as 0) is within 1..5 and the rounded price is positive; a kept row carries the trimmed texts, that price and rating, the availability and the image fields unchanged |
| BooksTransformer.TransformBooks | src/transformers/books_transformer.py:16-49 | the output is never longer than the input and every book in it is well formed |
| BooksTransformer.TransformBooksAppend | src/transformers/books_transformer.py:19-45 | the transform of a concatenation is the concatenation of the transforms, so it is an order-preserving filter |
| BooksTransformer.TransformBooksSingle | src/transformers/books_transformer.py:19-45 | on one row the transform gives that row's converted book or nothing |
| BooksTransformer.TransformBooksKeepsDuplicates | src/transformers/books_transformer.py:19-45 | a repeated row is emitted as often as it occurs |
| PartnersCleaner.ContactString | src/transformers/partners_cleaner.py:6 | the hashed text has the three fields and the salt with a `|` after each of the first three |
| PartnersCleaner.SplitAtBar | src/transformers/partners_cleaner.py:6 | a `|`-terminated leading field without `|` is determined by the joined text |
| PartnersCleaner.ContactStringInjective | src/transformers/partners_cleaner.py:5-7 | when no contact field contains `|`, equal hashed texts mean equal fields and salt |
| PartnersCleaner.SeparatorCollision | src/transformers/partners_cleaner.py:5-7 | the separator is not escaped, so two different contacts can hash alike |
| PartnersCleaner.Trimmed | src/transformers/partners_cleaner.py:15-16 | `(x or "").strip()` is stripped and empty exactly when the value was missing or all white space |
| PartnersCleaner.OptionalText | src/transformers/partners_cleaner.py:31-33 | the optional fields are the stripped non-empty text, or None exactly when nothing but white space was there |
| PartnersCleaner.ConvertPartnerSpec | src/transformers/partners_cleaner.py:14-37 | a row is kept exactly when trimmed shop name and address are non-empty; a kept row carries them, the hash of the trimmed contact fields and the salt, the postal code, town and speciality each as its trimmed text or None when blank, and the turnover and partnership date unchanged |
| PartnersCleaner.Converted | src/transformers/partners_cleaner.py:14-37 | the rule is applied to every row, in order |
| PartnersCleaner.ConvertedAppend | src/transformers/partners_cleaner.py:14-37 | converting a concatenation gives the concatenation of the converted halves |
| PartnersCleaner.TransformPartners | src/transformers/partners_cleaner.py:10-40 | the output is never longer than the input, and every partner is well formed and the image of one input row |
| PartnersCleaner.TransformPartnersAppend | src/transformers/partners_cleaner.py:13-38 | the transform is an order-preserving filter without deduplication |
| PartnersCleaner.TransformPartnersSingle | src/transformers/partners_cleaner.py:11-37 | on one row the transform applies the rule with the `PII_SALT` value, or with `change_me` when it is unset |
| PartnersCleaner.AsDict | src/transformers/partners_cleaner.py:28-37 | the output record has exactly the eight keys and none of the three contact fields |
| PartnersExcel.Missing | src/extractors/partners_excel.py:30 | the missing columns are exactly the required columns absent from the header |
| PartnersExcel.MissingAppend | src/extractors/partners_excel.py:30 | the report follows the order of the requirements, whatever the header's order |
| PartnersExcel.MissingAll | src/extractors/partners_excel.py:4-15 | a header without any column lacks all ten columns, listed in required order |
| PartnersExcel.NonBlankRows | src/extractors/partners_excel.py:38 | the rows kept are exactly the rows with at least one value |
| PartnersExcel.NonBlankRowsAppend | src/extractors/partners_excel.py:38 | dropping blank rows keeps the order of the sheet |
| PartnersExcel.ToRecord | src/extractors/partners_excel.py:40 | a record has a key for every header column, mapped to the cell below it |
| PartnersExcel.ToRecords | src/extractors/partners_excel.py:40 | one record per row, in order |
| PartnersExcel.ReadPartnersExcel | src/extractors/partners_excel.py:18-42 | no file gives FileNotFoundError; missing columns give ValueError listing them in required order; otherwise every non-blank row comes back in order as a record over all header columns |
| PartnersExcel.ReadPartnersExcelColumns | src/extractors/partners_excel.py:30-40 | every returned record has every required column |
| PartnersExcel.ReadPartnersExcelNonBlank | src/extractors/partners_excel.py:38-40 | no returned record is made of empty cells only |
| PartnersExcel.RecordNotBlank | src/extractors/partners_excel.py:38-40 | a row with a value gives a record with a value |
| SilverWriter.SilverPathShape | src/loaders/silver_writer.py:25-28 | the path is `<silver_dir>/run_id=<run_id>/<dataset>_clean.csv` for a directory without trailing slash and a relative dataset name |
| SilverWriter.RunDirShape | src/loaders/silver_writer.py:25 | the run directory's name is relative and has no trailing slash |
| SilverWriter.SortedKeys | src/loaders/silver_writer.py:37 | the header is strictly sorted and holds exactly the keys of the rows |
| SilverWriter.Project | src/loaders/silver_writer.py:40-42 | each header column gets the row's value, or the empty string when the row lacks it or holds None |
| SilverWriter.ContentReadBack | src/loaders/silver_writer.py:39-42 | the file reads back as the header followed by one record per row |
| SilverWriter.CollectHeader | src/loaders/silver_writer.py:37 | collecting the keys of all rows gives a strictly sorted header of exactly those keys |
| SilverWriter.KeyUnionAppend | src/loaders/silver_writer.py:37 | the keys of a concatenation are the union of the keys of its halves |
| SilverWriter.WriteSilverCsv | src/loaders/silver_writer.py:24-44 | returns the path and changes the file system only there; no rows gives an empty file; otherwise the file reads back as a sorted duplicate-free header of exactly the row keys, then one record per row in order; the old content has no influence |
| PostgresLoader.LoadBooks | src/loaders/postgres_loader.py:3-30 | returns the number of rows; the books table ends as its old content, or nothing after truncation, followed by the rows in order; no other table changes |
| PostgresLoader.LoadBooksIdempotent | src/loaders/postgres_loader.py:5-28 | with truncation, loading the same rows twice leaves the table as one load does |
| PostgresLoader.LoadBooksAppends | src/loaders/postgres_loader.py:11-28 | without truncation every load appends, with no deduplication |
| PostgresLoader.Truncated | src/loaders/postgres_loader.py:35-36 | the truncated schema satisfies every constraint |
| PostgresLoader.AddAuthorsKeepsPrefix | src/loaders/postgres_loader.py:43-46 | the author inserts only append to the table |
| PostgresLoader.AddAuthorsSpec | src/loaders/postgres_loader.py:43-46 | the author inserts keep the table valid, add exactly the given names, and draw one id per name, conflicts included |
| PostgresLoader.AddAuthorsValid | src/loaders/postgres_loader.py:43-46 | names stay unique and ids increase below the counter, which advances once per name |
| PostgresLoader.AddAuthorsNames | src/loaders/postgres_loader.py:43-46 | the names after the inserts are the old names plus the given ones |
| PostgresLoader.AuthorsValidAppend | src/loaders/postgres_loader.py:43-46 | inserting a new name with the counter's value keeps the table valid |
| PostgresLoader.AddAuthorsFresh | src/loaders/postgres_loader.py:42-46 | on a table without them, distinct sorted names get consecutive ids in their order |
| PostgresLoader.AuthorIdOf | src/loaders/postgres_loader.py:49-50 | the id found for a present name is the id of an author row with that name |
| PostgresLoader.AuthorNameOf | src/loaders/postgres_loader.py:60-66 | the join finds the name of the author with the id, or there is no such author |
| PostgresLoader.AuthorLookups | src/loaders/postgres_loader.py:49-66 | in a valid table the lookup by name and the lookup by id are inverse |
| PostgresLoader.NewQuotes | src/loaders/postgres_loader.py:53-57 | one quote row per input row, in order, with consecutive ids, the row's text and its author's id |
| PostgresLoader.QuoteIdOf | src/loaders/postgres_loader.py:60-67 | the id found belongs to a quote with that text whose author has that name; None means there is no such quote |
| PostgresLoader.RowAuthors | src/loaders/postgres_loader.py:42 | the names listed are exactly the authors of the rows |
| PostgresLoader.InsertAuthorsAndQuotes | src/loaders/postgres_loader.py:42-57 | after the inserts every row's author is in the authors table |
| PostgresLoader.InsertedQuotesFound | src/loaders/postgres_loader.py:67-72 | after the inserts the lookup finds a quote for every row, so the tag step never misses a key |
| PostgresLoader.QuoteFound | src/loaders/postgres_loader.py:60-72 | a quote whose author is in a valid table is found under its text and its author's name |
| PostgresLoader.LoadQuotes | src/loaders/postgres_loader.py:32-82 | returns the number of rows |
| PostgresLoader.LoadQuotesEmpty | src/loaders/postgres_loader.py:35-39 | an empty input still truncates when asked, then returns 0 with nothing inserted |
| PostgresLoader.InsertedAuthors | src/loaders/postgres_loader.py:42-50 | the authors table keeps its rows, stays valid and gains exactly the row authors not yet present |
| PostgresLoader.NewQuotesAppended | src/loaders/postgres_loader.py:53-57 | the new quote rows follow the old ones, one per input row, each naming the row's author |
| PostgresLoader.InsertedQuotes | src/loaders/postgres_loader.py:53-57 | the quote inserts append one row per input row with ids from the counter; duplicate input rows give duplicate quote rows |
| PostgresLoader.QuotesValidExtend | src/loaders/postgres_loader.py:53-57 | appending rows with fresh increasing ids keeps the quotes table valid |
| PostgresLoader.InsertedQuotesHaveAuthors | src/loaders/postgres_loader.py:49-57 | every quote, old or new, names an existing author |
| PostgresLoader.InsertedQuotesKeepTags | src/loaders/postgres_loader.py:53-57 | the old tag pairs still point at existing quotes |
| PostgresLoader.InsertAuthorsAndQuotesValid | src/loaders/postgres_loader.py:42-57 | the author and quote inserts keep the schema's constraints |
| PostgresLoader.LoadQuotesShape | src/loaders/postgres_loader.py:34-80 | on a non-empty input the load is the inserts followed by the tag insert |
| PostgresLoader.LoadQuotesValid | src/loaders/postgres_loader.py:32-82 | the load keeps the schema's constraints |
| PostgresLoader.LoadQuotesTags | src/loaders/postgres_loader.py:67-80 | the tag table holds the old pairs plus one pair per row and tag, with the id found for the row's text and author, and nothing else; rows sharing text and author attach their tags to one quote |
| PostgresLoader.LoadQuotesAuthors | src/loaders/postgres_loader.py:42-50 | the books are untouched and the author names are those after the optional truncation plus the row authors |
| PostgresLoader.LoadQuotesQuotes | src/loaders/postgres_loader.py:52-57 | the quotes table is its rows after the optional truncation followed by one row per input row, in order |
| PostgresLoader.LoadQuotesTruncatedAuthors | src/loaders/postgres_loader.py:35-46 | with truncation the authors are the distinct row authors in sorted order with ids 1, 2, ... |
| PostgresLoader.LoadQuotesIdempotent | src/loaders/postgres_loader.py:34-80 | with truncation, loading the same rows twice leaves the tables as one load does |
| BooksScraper.EnsureBucket | src/extractors/books_scraper.py:31 | the bucket exists afterwards and no object changes |
| BooksScraper.OrDefault | src/extractors/books_scraper.py:36 | `x or d` is `x` when it is a non-empty string and `d` otherwise |
| BooksScraper.BeforeQuery | src/extractors/books_scraper.py:33 | the URL is cut at its first `?` |
| BooksScraper.BeforeQueryAt | src/extractors/books_scraper.py:33 | for a `?`-free path, the cut of `path?query` is the path |
| BooksScraper.ImageExt | src/extractors/books_scraper.py:33 | the extension starts with a dot; it is `.jpg` when the URL's path part (query cut off) has no extension, and that extension otherwise |
| BooksScraper.ImageExtQuery | src/extractors/books_scraper.py:33 | a query string is cut before the extension is taken |
| BooksScraper.ImageExtDefault | src/extractors/books_scraper.py:33 | a path without extension falls back to `.jpg` |
| BooksScraper.KeyPrefix | src/extractors/books_scraper.py:36 | the prefix neither starts nor ends with `/` |
| BooksScraper.KeyPrefixDefault | src/extractors/books_scraper.py:36 | None and the empty directory both give `books` |
| BooksScraper.KeyPrefixRoot | src/extractors/books_scraper.py:36 | the directory `/` gives the empty prefix |
| BooksScraper.KeyPrefixCut | src/extractors/books_scraper.py:36 | `/name/` gives `name` |
| BooksScraper.ImageKey | src/extractors/books_scraper.py:33-38 | the key starts with the prefix and a slash, ends with the extension, and holds exactly the digest of the URL between them |
| BooksScraper.ImageKeySame | src/extractors/books_scraper.py:34-38 | under one prefix, two URLs share a key exactly when they share digest and extension |
| BooksScraper.DownloadImage | src/extractors/books_scraper.py:28-56 | the bucket is ensured; an existing key is returned with the store unchanged; otherwise the key comes back exactly when fetch and upload succeed, the bytes and content type (`image/jpeg` by default) stored under it; failure gives None with the objects untouched |
| BooksScraper.DownloadKeepsObjects | src/extractors/books_scraper.py:40-50 | no stored object is replaced, and only the image's own key can be added |
| BooksScraper.DownloadTwice | src/extractors/books_scraper.py:40-50 | after a successful download, a second one returns the same key with the store unchanged, so two calls upload at most once |
| BooksScraper.RatingOf | src/extractors/books_scraper.py:91-93 | the rating is within 0..5 and is 0 exactly when the second class is missing or not a rating word |
| BooksScraper.RatingWords | src/extractors/books_scraper.py:14 | `One`..`Five` give their own numbers, distinct words give distinct ratings, and a short class list rates 0 |
| BooksScraper.InStock | src/extractors/books_scraper.py:95-96 | in stock exactly when the text contains `In stock` |
| BooksScraper.InStockExamples | src/extractors/books_scraper.py:96 | the site's two availability texts give true and false |
| BooksScraper.ScrapeBook | src/extractors/books_scraper.py:88-115 | the row carries the card's title, price text, rating, availability and image URL; the image path stays None with downloads off or no image URL, and is the download's result otherwise |
| BooksScraper.ScrapeBooks | src/extractors/books_scraper.py:85-115 | one row per card, in page order, each the row of its own card |
| BooksScraper.ScrapeBooksStore | src/extractors/books_scraper.py:102-103 | scraping never replaces a stored object, and with downloads off leaves the store as it was |
| BooksScraper.ScrapeBooksAppend | src/extractors/books_scraper.py:85-115 | scraping the cards `a + b` scrapes `a`, then `b` on the store `a` left behind, rows and final store alike |
| BooksScraper.ScrapeBooksRow | src/extractors/books_scraper.py:88-115 | card `i` gets the row the loop body builds for it on the store left by the cards before it, so its image path is the result of `_download_image` run against that store |
| BooksScraper.ScrapeBooksRows | src/extractors/books_scraper.py:85-115 | every row of a category is its card's row on the store threaded through the earlier cards' downloads |
| GitSetupHook.TrailingDigits | scripts-dev-env-only/src/git_setup_hook.py:106 | the ASCII digit run found at the end is maximal |
| GitSetupHook.MatchCoreIff | scripts-dev-env-only/src/git_setup_hook.py:106-107 | the matcher accepts exactly the names `my_` + name characters + `_v` + ASCII digits |
| GitSetupHook.IsValidHookFilename | scripts-dev-env-only/src/git_setup_hook.py:101-107 | a name is valid exactly when it, or it without one final newline, matches the pattern, with `\d` read as the ASCII digits |
| GitSetupHook.HookFilenameExamples | scripts-dev-env-only/src/git_setup_hook.py:101-107 | `my_commit-msg_v10` is valid; a name without version digits or without `my_` is not |
| GitSetupHook.Repeat | scripts-dev-env-only/src/git_setup_hook.py:151 | the delimiter is a line of the given number of equal signs |
| GitSetupHook.Classify | scripts-dev-env-only/src/git_setup_hook.py:127-157 | description files are skipped exactly when the name ends in `_description`; a file is valid exactly when its name is valid, its description is listed, and the stripped description starts and ends with the delimiter |
| GitSetupHook.OfKind | scripts-dev-env-only/src/git_setup_hook.py:125-157 | each list holds exactly the listed files of its kind |
| GitSetupHook.DescriptionNames | scripts-dev-env-only/src/git_setup_hook.py:138 | each description name is the file name with `_description` appended |
| GitSetupHook.OfKindSnoc | scripts-dev-env-only/src/git_setup_hook.py:127-157 | one more file of a kind appends that file to its list |
| GitSetupHook.SortHookFiles | scripts-dev-env-only/src/git_setup_hook.py:119-157 | the loop fills each list with the files of its kind in listing order, invalid descriptions by description name |
| GitSetupHook.BucketsPartition | scripts-dev-env-only/src/git_setup_hook.py:127-157 | a description file lands in no script list, and every other file in exactly one list |
| GitSetupHook.CheckHookFiles | scripts-dev-env-only/src/git_setup_hook.py:109-177 | invalid names are reported first, then missing descriptions, then invalid descriptions; a normal return means every non-description file is valid and gives the valid files in listing order |
| GitSetupHook.BeforeFinalNewline | scripts-dev-env-only/src/git_setup_hook.py:184 | the text matched by `$` is the name, or the name without one final newline |
| GitSetupHook.VersionAtIff | scripts-dev-env-only/src/git_setup_hook.py:184 | a match of `_v\d+$`, with `\d` the ASCII digits, can only sit right before the digit run that ends the name |
| GitSetupHook.VersionOf | scripts-dev-env-only/src/git_setup_hook.py:184-188 | a version is found exactly when the name ends in `_v` and ASCII digits, and it is those digits as text |
| GitSetupHook.ValidNameHasVersion | scripts-dev-env-only/src/git_setup_hook.py:184-188 | every valid hook name has a version |
| GitSetupHook.VersionsAreText | scripts-dev-env-only/src/git_setup_hook.py:188-189 | `v01` and `v1` give the different versions `01` and `1` |
| GitSetupHook.PutGet | scripts-dev-env-only/src/git_setup_hook.py:191 | after `d[key] = v`, `key` gives `v` and every other key what it gave before |
| GitSetupHook.PutOrder | scripts-dev-env-only/src/git_setup_hook.py:191 | a new key goes last and an existing key keeps its place |
| GitSetupHook.PutDistinct | scripts-dev-env-only/src/git_setup_hook.py:191 | keys stay distinct, and every entry is the new one or an old one |
| GitSetupHook.GetNone | scripts-dev-env-only/src/git_setup_hook.py:191 | a lookup fails exactly when no entry has the key |
| GitSetupHook.FileKeys | scripts-dev-env-only/src/git_setup_hook.py:184-189 | each file yields the key `version <digits>` when it has a version |
| GitSetupHook.VersionsData | scripts-dev-env-only/src/git_setup_hook.py:179-197 | keys are distinct and every description path is the script path with `_description` appended |
| GitSetupHook.LastWith | scripts-dev-env-only/src/git_setup_hook.py:183-195 | the position found is the last one holding the key; None means no position holds it |
| GitSetupHook.VersionsDataLookup | scripts-dev-env-only/src/git_setup_hook.py:183-197 | the entry under a key is that of the last file yielding it, so a later file with the same version replaces the earlier one; a key no file yields is absent |
| GitSetupHook.VersionsDataValid | scripts-dev-env-only/src/git_setup_hook.py:184-195 | every valid script has its version's key in the table |
| GitSetupHook.DescriptionPathAppend | scripts-dev-env-only/src/git_setup_hook.py:193-194 | joining `f + "_description"` is joining `f` and appending `_description` |

## Left out

- Network, HTML and pagination: `_get_soup`, the category and `li.next` loops of `scrape_books`, the BeautifulSoup selectors and `time.sleep`. A card is the `Pod` datatype and `urljoin(BASE_URL, ·)` is the `resolve` parameter.
- The MinIO client (`ensure_bucket`, `object_exists`, `upload_bytes`) is the `Store` map. Its own errors (an unreachable server, or a failing `ensure_bucket`, which the code does not catch) are not modelled; an upload failure is the `uploadOk` parameter.
- MD5 (RFC 1321) and SHA-256 (FIPS 180-4) with their hexadecimal output are function parameters; the digest algorithms are not modelled.
- Logging, `sys.exit`, `print`, the orchestration in `src/pipeline.py` and `src/main.py`, the bronze writers, the quotes and address extractors, and the interactive parts of the hook installer (`input()` loops, hook creation, `chmod`) are outside the model.
- Reading files and listing directories: the listing of the hook directory after its `os.path.isfile` filter, in `os.listdir` order, is the `all` parameter, and `read_text` is the `read` function. Directories are not modelled: the file-system map holds files only, so `os.makedirs` and its failure when a regular file stands where the run directory should be are left out, and writing the file is the update of the map at its path.
- `MY_HOOKS_DIR` is a parameter of `GitSetupHook.VersionsData`.
- BooksTransformer.RoundCents: prices are exact reals, not binary floats. `round(x, 2)` is round-half-even on the exact value, so a tie that a float misrepresents is not modelled, and the euro price is held in cents.
- BooksTransformer.ParseGbp: `\d` is modelled as the ASCII digits. Python's `\d` also matches other Unicode decimal digits, which `float` would accept too.
- GitSetupHook.TrailingDigits: `\d` is modelled as the ASCII digits. Python's `\d` also matches other Unicode decimal digits, so the source accepts a name such as `my_a_v٣` that the model rejects.
- GitSetupHook.MatchCoreIff: `\d` is modelled as the ASCII digits. Python's `\d` also matches other Unicode decimal digits, so the source accepts a name such as `my_a_v٣` that the model rejects.
- GitSetupHook.IsValidHookFilename: `\d` is modelled as the ASCII digits. Python's `\d` also matches other Unicode decimal digits, so the source accepts a name such as `my_a_v٣` that the model rejects.
- GitSetupHook.VersionAtIff: `\d` is modelled as the ASCII digits. Python's `\d` also matches other Unicode decimal digits, so the source accepts a name such as `my_a_v٣` that the model rejects.
- GitSetupHook.VersionOf: `\d` is modelled as the ASCII digits. Python's `\d` also matches other Unicode decimal digits, so the source accepts a name such as `my_a_v٣` that the model rejects.
- BooksTransformer.ConvertBook: the rating is an optional integer; `int()` on a string rating, and its ValueError, are not modelled. Availability is a boolean `Option`, with a missing value read as false.
- PartnersCleaner.ConvertPartner: cells are strings or None. `str()` of a number read from the spreadsheet (a telephone or postal code stored as a number) and pandas NaN are not modelled.
- PartnersExcel.ReadPartnersExcel: the sheet is given as a header and rows of optional strings; `pd.read_excel` type conversion, unnamed and duplicate column labels (the sheet must have distinct labels), and the file existence test are outside it.
- SilverWriter.WriteSilverCsv: values are strings or None; `str()` formatting of other types by the csv writer is not modelled. `SortedKeys` is a ghost function, and the method computes the same header with `CollectHeader`.
- PostgresLoader.QuoteIdOf: the `SELECT` behind `quote_map` has no `ORDER BY`. The model reads the rows in insertion order, so when two quotes share text and author the later id wins.
- PostgresLoader.LoadQuotes: its own contract states only the count; what it does to the tables is stated by the `LoadQuotes...` lemmas. A failing `author_map` or `quote_map` lookup (a `KeyError`) cannot happen, as `InsertedQuotesFound` shows, so it is not modelled.
- PostgresLoader.LoadBooks: the book columns are the fields of `CleanBook`; the SQL types, NULL for absent image fields, and database errors are not modelled.
