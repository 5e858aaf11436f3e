# validol update engine, modelled in Dafny

validol keeps market statistics in per-source tables. Each table is a date-keyed resource, and an engine of *updaters* refreshes them. This project models that engine and the helpers around it:

- **Resource update cycle** (`Store`). A resource's stored range is the minimum and maximum date it holds.
  - `update()` chooses between an initial fill, an incremental fill from the day after the last stored date up to today, and nothing at all when the last stored date is today.
  - It writes the fetched frame with "ON CONFLICT IGNORE" semantics and reports the range of what it fetched.
  - The resource is a class whose `rows` map is updated in place. A row's key is a date, optionally paired with a second column: a primary key on Date, or a unique key such as the daily reports' (Date, CONTRACT).
- **Updater dispatch** (`Updater`). `update_source` runs a source's own update, then its dependencies in order. A dependency is either a whole updater (`update_entire`) or a list of named sources.
  - Results accumulate left to right, and any exception propagates.
  - Updater classes are identifiers resolved through a registry. A *world* value threads the side effects of every call.
  - Flavor updaters look their sources up in a name → flavor dictionary.
  - A resource updater has exactly one source, named after its table.
- **Composite updaters and the update manager** (`Composite`). A composite runs `update_entire` of each member class in order. It swallows connection and name-resolution errors. It returns `None` only when no member reported any (source, range) pair. A resource member that had nothing to do still reports its table with the range (None, None).
  - The manager's name → updater map lets a later updater take over a name.
  - `Update daily` and `Update all` are the application's two composites.
- **Daily reports** (`Daily`). Contracts share dates under a (Date, CONTRACT) key. `fill` downloads each available date in the window.
  - `update` runs the resource update twice. What the second run does depends on the first:
    - after a non-empty initial fill ending before today, it fills from the day after the latest stored date up to today;
    - after an empty initial fill, it is another initial fill;
    - after an initial fill reaching today, it does nothing.
- **CME archive names** (`Cme`). The `DailyBulletin_pdf_<digits>.zip` file-name filter covers the following:
  - how `strptime('%Y%m%d')` reads the eight digits after the prefix;
  - the date → file cache (a later file wins);
  - its lookups.
- **Monetary base deltas** (`MonetaryDelta`). The day-by-day change of the monetary base is spread evenly over each run of equal values. The deltas of a series sum to its last value minus its first.
- **Price downloader** (`Downloader`). It covers:
  - the weekly report dates since 2005-01-04;
  - the `unique` de-duplication of regex matches;
  - extending a cached price window on the left and right;
  - the date → price dictionary (a later line wins);
  - aligning prices to report dates, back-filling the leading gap.

Dates are whole days (days since 1970-01-01), and "today" is always a parameter. Exceptions are a datatype:

- `ConnectionError` and `Gaierror` are the two that composites swallow.
- `Other` stands for every other exception: `KeyError`, `TypeError`, `IndexError`, `RecursionError`.

Database reads and writes become operations on the `rows` map. Downloads and per-class update implementations are function parameters.

After an incremental fill, the range of the resource is the smallest and largest stored date. That is today only when the fill returned a row for today. It is not today merely because the fill window ended today. `Store.StepRangeGrows` and `Store.StepFillAddsFetchedRows` state what does hold.

## Model

| member | source | states |
|---|---|---|
| Ranges.ReduceRanges | validol/model/store/resource.py:58-61 | the reduction is absent exactly when there are no ranges to reduce (zip of nothing) |
| Ranges.ReduceRangesFirst | validol/model/store/resource.py:58-61 | the reduced first date is None iff every range's first is None, otherwise it is one of the firsts and no larger than any present first |
| Ranges.ReduceRangesLast | validol/model/store/resource.py:58-61 | the reduced last date is None iff every range's last is None, otherwise it is one of the lasts and no smaller than any present last |
| Store.InsertAll | validol/model/store/resource.py:164-168 | writing a frame adds exactly the frame's keys, never changes a stored row, and a new key keeps the first row the frame gives it (ON CONFLICT IGNORE) |
| Store.Resource.constructor | validol/model/store/resource.py:164-169 | a resource opens over the rows already in its table |
| Store.Resource.Range | validol/model/store/resource.py:171-180 | range() is the least and greatest stored date, both None exactly when the table is empty |
| Store.RangeOf | validol/model/store/resource.py:171-180 | the range is empty exactly when no rows are stored, and first and last are absent together |
| Store.Resource.Write | validol/model/store/resource.py:220-227 | write_df/write_update leave the rows equal to the old rows with the frame inserted under ON CONFLICT IGNORE |
| Store.Resource.Select | validol/model/store/resource.py:209-218 | read_df returns stored rows only, sorted by date with distinct keys, and exactly the keys that satisfy the query |
| Store.Resource.ReadDates | validol/model/store/resource.py:189-207 | read_dates_ts returns exactly the stored rows whose date lies within the optional bounds, sorted by date |
| Store.GetRange | validol/model/store/resource.py:229-233 | get_range of a frame is (None, None) iff the frame is empty, otherwise the dates of its first and last rows |
| Store.GetRangeOfSorted | validol/model/store/resource.py:229-233 | on a date-sorted frame, get_range is the least and greatest date the frame holds |
| Store.Plan | validol/model/store/resource.py:133-142 | update chooses initial fill iff nothing is stored, does nothing iff the last stored date is today, and otherwise fills from the day after the last date up to today |
| Store.Step | validol/model/store/resource.py:133-146 | one update on a table: nothing, the initial fill or the incremental fill as planned, written with ON CONFLICT IGNORE, reporting the fetched range |
| Store.Resource.Update | validol/model/store/resource.py:133-146 | one update call leaves the rows and the result described by the update step on the old rows |
| Store.StepIdempotentOnToday | validol/model/store/resource.py:136-140 | when the last stored date is today, update returns (None, None) and writes nothing, and a second call does the same |
| Store.StepKeepsStoredRows | validol/model/store/resource.py:144 | an update never loses or changes a stored row |
| Store.StepRangeGrows | validol/model/store/resource.py:133-146 | on a non-empty resource the stored range only widens |
| Store.StepFillWindowIsNew | validol/model/store/resource.py:137-138 | the incremental fill window starts after every stored date |
| Store.StepInitial | validol/model/store/resource.py:141-146 | an initial fill of an empty resource stores exactly the frame's keys and reports the dates of the frame's first and last rows; the stored range is the least and greatest date in the frame, and the two agree on a date-sorted frame (GetRangeOfSorted) |
| Store.InitialThenSameDay | validol/model/store/resource.py:136-146 | after an initial fill whose data reaches today, a second update on the same day is a no-op |
| Store.StepFillAddsFetchedRows | validol/model/store/resource.py:137-146 | an incremental fill whose rows lie in its window adds exactly those keys, all new, so the row count grows by the number of fetched keys |
| Store.DateOnlyKeysStrictlyIncrease | validol/model/store/resource.py:165-168 | with PRIMARY KEY (Date), rows read back sorted have strictly increasing dates |
| Store.Earliest | validol/model/store/resource.py:215-216 | the ordering step of read_df (sort_index) takes, from a non-empty key set, a stored key whose date is smallest |
| Store.GetFlavorAtoms | validol/model/store/resource.py:239-244 | a flavor contributes no atoms when atoms_donor is False (or has no schema), otherwise the column names of its schema in order |
| Store.CheckEmpty | validol/model/store/resource.py:344-352 | check_empty passes an empty frame through untouched and applies the wrapped function otherwise |
| Updater.Catalogue | validol/model/store/view/composite_updater.py:19-20 | a composite's catalogue is the single source carrying its own name |
| Updater.SourceSpec | validol/model/store/resource.py:66-80 | update_source: the source's own update, its entry only when not None, then each dependency in order, exceptions propagating |
| Updater.UpdateSource | validol/model/store/resource.py:66-80 | update_source returns what the update-source specification says for the same registry, world and name |
| Updater.UpdateEntire | validol/model/store/resource.py:88-94 | update_entire returns what the update-entire specification says: each catalogued source updated in order |
| Updater.CompositeUpdateSource | validol/model/store/view/composite_updater.py:22-33 | the composite update returns what the composite specification says |
| Updater.OwnResultFirst | validol/model/store/resource.py:66-80 | a source's own result comes first (only when not None), then its dependencies' results, and an exception from either propagates |
| Updater.NamesAppend | validol/model/store/resource.py:77-78 | updating a list of named sources extends the accumulated results by the list's own results |
| Updater.DepsAppend | validol/model/store/resource.py:71-78 | running the dependencies extends the accumulated results by their own results |
| Updater.NamedDependencyOrder | validol/model/store/resource.py:66-80 | with A depending on [B, C] of one updater, A's result is A's entry then B's then C's |
| Updater.SelfDependencyNeverReturns | validol/model/store/resource.py:66-80 | a source that depends on itself never returns a result, because the recursion limit raises |
| Updater.MembersNeverThrowTransient | validol/model/store/view/composite_updater.py:25-31 | running composite members can never raise ConnectionError or gaierror |
| Updater.CompositeIsolatesNetworkFailure | validol/model/store/view/composite_updater.py:25-33 | a member failing with a network error is skipped, and the next member's results are still collected |
| Updater.CompositePropagatesOtherFailure | validol/model/store/view/composite_updater.py:25-31 | any other exception from a member aborts the composite with that exception |
| Updater.CompositeIgnoresName | validol/model/store/view/composite_updater.py:22-27 | a composite's update does not depend on the requested source name |
| Updater.FlavorsMap | validol/model/store/resource.py:107 | flavors_map has exactly the flavors' names as keys, each mapped to a flavor of that name |
| Updater.FlavorsMapLastWins | validol/model/store/resource.py:107 | with duplicate names, the last flavor of a name wins |
| Updater.FlavorOrder | validol/model/store/resource.py:115-116 | get_sources lists each flavor name exactly once |
| Updater.FlavorOrderExtends | validol/model/store/resource.py:107-116 | adding flavors only appends to the order of get_sources (dict insertion order) |
| Updater.FlavorClass | validol/model/store/resource.py:103-122 | a flavor updater is a plain updater whose catalogue is the flavor-name order |
| Updater.FlavorUnknownSource | validol/model/store/resource.py:109-110 | update_source of a name that is not a flavor raises KeyError before touching anything |
| Updater.ResourceUpdaterClass | validol/model/store/resource.py:247-257 | a resource updater has one source named after its table and no dependencies |
| Updater.ResourceUpdaterEntire | validol/model/store/resource.py:253-257 | update_entire of a resource updater is one update() call, reported under the table's name |
| Composite.AllSources | validol/model/store/view/composite_updater.py:66-67 | as a set, the manager's source list holds exactly the names in some updater's catalogue |
| Composite.AllSourcesAppend | validol/model/store/view/composite_updater.py:66-67 | the source list is the catalogues concatenated in updater order |
| Composite.AllSourcesKeepsRepeats | validol/model/store/view/composite_updater.py:66-67 | a name advertised by two updaters is listed twice (no de-duplication) |
| Composite.OwnerMap | validol/model/store/view/composite_updater.py:59-60 | one updater's dictionary maps exactly its catalogue names to itself |
| Composite.SourceMap | validol/model/store/view/composite_updater.py:57-61 | the name → updater map, each updater's names overriding the earlier ones |
| Composite.SourceMapKeys | validol/model/store/view/composite_updater.py:57-61 | the source map's keys are exactly the names in some updater's catalogue |
| Composite.SourceMapLastOwner | validol/model/store/view/composite_updater.py:58-61 | a name maps to the last updater whose catalogue holds it |
| Composite.SourceMapSnoc | validol/model/store/view/composite_updater.py:58-61 | each updater's dictionary overrides the map built so far |
| Composite.BuildSourceMap | validol/model/store/view/composite_updater.py:57-61 | the constructor's loop builds exactly the source map |
| Composite.AllSourcesAreMapped | validol/model/store/view/composite_updater.py:57-67 | every listed source is dispatchable and every dispatchable name is listed |
| Composite.UpdateManager.constructor | validol/model/store/view/composite_updater.py:53-61 | the manager keeps the classes and builds its source map from them |
| Composite.UpdateManager.UpdateSource | validol/model/store/view/composite_updater.py:63-64 | a known name is dispatched to its owner's update_source, and an unknown name raises KeyError with the world untouched |
| Composite.UpdateManager.GetSources | validol/model/store/view/composite_updater.py:66-67 | as a set, get_sources lists exactly the dispatchable names; its order and repeats are those of AllSourcesAppend |
| Composite.UpdateManager.Config | validol/model/store/view/composite_updater.py:69-70 | config fails with KeyError iff the name is unknown, and otherwise asks the owner |
| Composite.AppRegistry | validol/model/store/view/composite_updater.py:36-50 | the daily composite is "Update daily" over [Expirations, DailyReports], and the entire one is "Update all" over [Monetary, Cftc, Ice] followed by those |
| Composite.CompositeNamesDispatch | validol/model/store/view/composite_updater.py:36-61 | in the application's manager, "Update all" and "Update daily" dispatch to their composites |
| Composite.UpdateAllEndsWithDaily | validol/model/store/view/composite_updater.py:44 | "Update all" runs the weekly and monetary members, then exactly what "Update daily" runs |
| Composite.TableUpdate | validol/model/store/resource.py:253-254 | update_source_impl of a resource updater is the table's own update() step, with the table's rows as the world |
| Composite.ResourceUpdaterRunsTableUpdate | validol/model/store/resource.py:133-146 | update_entire of a resource updater over a table is one update step reported under the table's name; stored rows are kept, and a table already at today is unchanged and still reported with (None, None) |
| Composite.MembersAppend | validol/model/store/view/composite_updater.py:25-27 | running members xs + ys runs xs, then ys from where xs left off |
| Composite.MembersAccumulate | validol/model/store/view/composite_updater.py:23-27 | the members' results are appended to what was accumulated before |
| Daily.Window | validol/model/store/miners/daily_reports/daily.py:46-48 | the fill window is the available dates between first and last inclusive |
| Daily.ConcatDownloads | validol/model/store/miners/daily_reports/daily.py:46-48 | the download list succeeds iff every download does, fails with the first failing one's exception, and otherwise holds exactly the downloaded rows |
| Daily.Fill | validol/model/store/miners/daily_reports/daily.py:46-48 | fill concatenates the downloads of the window dates in the set's iteration order |
| Daily.FillDownloadsWindow | validol/model/store/miners/daily_reports/daily.py:46-48 | whatever the set iteration order, fill fails iff a window date's download fails, and otherwise returns exactly the rows downloaded for window dates |
| Daily.ContractsShareDates | validol/model/store/miners/daily_reports/daily.py:25-33 | an illustration of InsertAll under the (Date, CONTRACT) key on one three-row frame: two contracts coexist on one date while a repeated pair keeps its first row |
| Daily.GetFlavor | validol/model/store/miners/daily_reports/daily.py:40-41 | get_flavor returns every stored row of the contract and nothing else, sorted by date |
| Daily.GetFlavors | validol/model/store/miners/daily_reports/daily.py:35-38 | get_flavors is exactly the set of stored contracts |
| Daily.Update | validol/model/store/miners/daily_reports/daily.py:50-52 | update performs the resource update twice, the second on the rows the first left and with its own initial_fill/fill results, and stops at the first exception |
| Daily.SecondRunFillsAfterInitial | validol/model/store/miners/daily_reports/daily.py:50-52 | after an initial fill ending before today, the second run fills from the day after its latest date up to today |
| Daily.RetriedInitialStoresSecondDownload | validol/model/store/miners/daily_reports/daily.py:43-52 | after an empty initial fill, the second run stores exactly the keys its own initial_fill() download returns and reports their range, or raises that download's exception with the table still empty |
| Daily.EmptyInitialIsRetried | validol/model/store/miners/daily_reports/daily.py:50-52 | an empty initial fill leaves the table empty, so the second run is another initial fill |
| Cme.IfValidZipShape | validol/model/store/miners/daily_reports/cme.py:56-58 | a name is a valid zip iff it is the prefix, one or more digits and ".zip", with at most one trailing newline |
| Cme.Ymd | validol/model/store/miners/daily_reports/cme.py:71 | the %Y%m%d spelling of a date is eight digits |
| Cme.ParseYmd | validol/model/store/miners/daily_reports/cme.py:69-73 | a parsed date is a valid calendar date, and the eight input digits are exactly its %Y%m%d spelling |
| Cme.ParseYmdOfYmd | validol/model/store/miners/daily_reports/cme.py:69-73 | parsing the %Y%m%d spelling of a valid date gives that date back |
| Cme.DigitsOfValue | validol/model/store/miners/daily_reports/cme.py:71 | a digit string is the zero-padded spelling of its own value |
| Cme.Handle | validol/model/store/miners/daily_reports/cme.py:65-73 | handle yields a date only for a valid zip name, and then the eight digits after the prefix spell that valid date |
| Cme.HandleSpelledDate | validol/model/store/miners/daily_reports/cme.py:65-73 | conversely, a valid zip whose first eight digits spell a valid date handles to that date |
| Cme.MonthThirteenHasNoDate | validol/model/store/miners/daily_reports/cme.py:69-73 | a valid zip whose eight digits are not a calendar date (month 13) has no date, because strptime raises and handle returns None |
| Cme.IfValidZip | validol/model/store/miners/daily_reports/cme.py:57-58 | the file-name filter: the prefix, one or more digits, ".zip" |
| Cme.ShortDigitsHaveNoDate | validol/model/store/miners/daily_reports/cme.py:65-73 | a valid zip with fewer than eight digits has no date |
| Cme.HandleFileName | validol/model/store/miners/daily_reports/cme.py:65-73 | the archive name of any valid date, followed by any further digits, handles back to that date |
| Cme.DaysInMonth | validol/model/store/miners/daily_reports/cme.py:71 | months have 28 to 31 days, and February has 29 exactly in leap years |
| Cme.Cache | validol/model/store/miners/daily_reports/cme.py:60-63 | the dictionary comprehension over the listed files, keyed by their handles |
| Cme.IndexKeys | validol/model/store/miners/daily_reports/cme.py:60-63 | a comprehension keyed by any key function has exactly the keys some file yields, each mapped to a listed file with that key |
| Cme.IndexKeepsLast | validol/model/store/miners/daily_reports/cme.py:60-63 | in such a comprehension the last file with a key wins |
| Cme.CacheIndex | validol/model/store/miners/daily_reports/cme.py:60-63 | the cache maps exactly the handled dates, each to a listed file that handles to it |
| Cme.CacheKeepsLast | validol/model/store/miners/daily_reports/cme.py:60-63 | of several files with one date, the last listed is cached |
| Cme.File | validol/model/store/miners/daily_reports/cme.py:89-90 | file(date) is a file iff some listed file handles to that date, and then one that does |
| Cme.AvailableHandles | validol/model/store/miners/daily_reports/cme.py:96-97 | the available handles are exactly the handled dates, all valid |
| Cme.Delete | validol/model/store/miners/daily_reports/cme.py:99-102 | delete removes a file iff the date is available, and then a file of that date |
| MonetaryDelta.Runs | model/store/collectors/monetary_delta.py:16 | groupby splits a series into non-empty runs of equal values, adjacent runs differing, the first run starting with the first value |
| MonetaryDelta.ExpandRuns | model/store/collectors/monetary_delta.py:16 | expanding the runs gives back the series |
| MonetaryDelta.LastRun | model/store/collectors/monetary_delta.py:16 | the last run carries the series' last value |
| MonetaryDelta.DeltasSpec | model/store/collectors/monetary_delta.py:15-25 | deltas raises IndexError exactly on an empty series |
| MonetaryDelta.Deltas | model/store/collectors/monetary_delta.py:15-25 | the nested loops compute the deltas specification |
| MonetaryDelta.DeltasProperties | model/store/collectors/monetary_delta.py:15-25 | one delta per input value, zeros across the first run, and the deltas sum to the last value minus the first |
| MonetaryDelta.DeltaOfRunMember | model/store/collectors/monetary_delta.py:18-23 | every position inside the i-th run gets that run's change from the previous run's value, divided by the run's length |
| MonetaryDelta.SumSpread | model/store/collectors/monetary_delta.py:18-23 | the spread changes telescope to the last run value minus the starting value |
| MonetaryDelta.SumShare | model/store/collectors/monetary_delta.py:18-23 | the n equal shares of a run of length n add up to the run's change from the previous value |
| MonetaryDelta.SpreadStep | model/store/collectors/monetary_delta.py:18-23 | each outer iteration appends its run's share, repeated run-length times |
| MonetaryDelta.Values | model/store/collectors/monetary_delta.py:32 | the value column of a frame, one entry per row |
| MonetaryDelta.DeltaFrame | model/store/collectors/monetary_delta.py:30-33 | initial_fill fails iff the source series is empty, and otherwise keeps every date and gives each row the delta of the value series at its position |
| MonetaryDelta.InitialFill | model/store/collectors/monetary_delta.py:30-33 | initial_fill replaces the series' values by their deltas |
| MonetaryDelta.Fill | model/store/collectors/monetary_delta.py:27-28 | fill ignores its window and recomputes the whole series |
| Downloader.Unique | downloader.py:17-18 | unique keeps the even-indexed elements of the first 2·⌊n/2⌋ |
| Downloader.UniqueOfDoubled | downloader.py:17-18 | unique undoes the doubling of every regex match |
| Downloader.GetDates | downloader.py:20-23 | get_dates lists 2005-01-04 and every seventh day after it, strictly before the last report date |
| Downloader.GetDatesProperties | downloader.py:20-23 | the dates are empty iff the last date is not after 2005-01-04, strictly increasing, and exactly the weekly dates in [2005-01-04, last) |
| Downloader.UpToDate | downloader.py:186-187 | update returns early when the last written report date is the current one |
| Downloader.DatesFile | downloader.py:212-213 | the dates file keeps what was written and appends the merged dates from position len(written_dates) on |
| Downloader.RunThenUpToDate | downloader.py:186-213 | after a run that appends dates, the file ends with the current report date, so the next run with that date returns early |
| Downloader.MissingProperties | downloader.py:120-131 | the missing windows are empty iff the cache covers the request, lie outside the cached window, and together with it cover the widened window |
| Downloader.ExtendCache | downloader.py:110-144 | a new pair fetches the whole request; a cached pair fetches only the missing left and right windows; the header becomes the widened window and the content is left + cached + right; a failed fetch is the last request; an empty request raises |
| Downloader.GetPrices | downloader.py:110-168 | get_prices fails iff extending the cache fails, with that exception, and otherwise returns the prices of the extended content within dates[0]..dates[-1] aligned to the dates: the fetched window for a new pair, and left + cached + right for a cached one |
| Downloader.PriceMap | downloader.py:146-151 | the price map holds exactly the line dates within the requested window, each with the price of its last line |
| Downloader.BuildPriceMap | downloader.py:146-151 | the loop builds exactly the price map |
| Downloader.FirstPriced | downloader.py:153-166 | the first priced date is the first position whose date has a price |
| Downloader.LatestPriced | downloader.py:153-160 | the latest priced position at or before n has a price, and no later one up to n does |
| Downloader.Aligned | downloader.py:153-166 | the aligned series has one entry per date |
| Downloader.AlignedProperties | downloader.py:153-166 | a priced date gets its price, an unpriced date after the first priced one repeats the previous entry, leading dates take the first price, and with no price at all every entry is -1 |
| Downloader.AlignStep | downloader.py:154-166 | one turn of the loop (append, then backfill) extends the alignment by one date |
| Downloader.Align | downloader.py:153-166 | the loop computes the aligned series |
| Downloader.FirstReal | downloader.py:162-164 | the scan stops at the first entry that is not -1 |
| Downloader.Backfilled | downloader.py:162-166 | back-filling keeps the length |
| Downloader.BackfilledProperties | downloader.py:162-166 | entries from the first real one on are kept, earlier ones take its value, and an all -1 series is unchanged |
| Downloader.Backfill | downloader.py:162-166 | the scan and copy-down loops compute the back-filled series |

## Left out

- SQL, pandas, FTP, HTTP, the file system, PDF parsing and the GUI are not modelled. Database tables become the `rows` map, and every download or parse becomes a function parameter.
  - This covers `Table`, `Platforms`, `Actives`, `ActiveResource`, `pre_dump`/`post_load`, `FtpCache`, `get_files`, `read_file`, `get_archive_files`, `get_net_prices`, `read_url` and the scraping helpers of downloader.py.
- `range_from_timestamp` is not a separate member. Dates are day numbers throughout, so it is the identity.
- `initial_fill`, `fill` and `update_source_impl` of the concrete resources are parameters, because their bodies are not part of this model.
  - The formula atoms, `MBDeltaAtom`, startup.py and packaging are not part of this model.
- Python's recursion limit is a `fuel` count. Running out of fuel raises `Other`, standing for `RecursionError`; the actual depth bound is not modelled.
- Daily.ConcatDownloads: the model assumes that `date_range(first, last)` includes both ends, and that concatenating no downloads gives an empty frame. validol.model.utils is not part of this model, and pandas' `concat([])` would raise ValueError, so a window with no available date may fail in Python where the model returns an empty frame.
- Set iteration order in `DailyResource.fill` is left arbitrary: the order is any enumeration of the window, and the properties hold for every such order.
- Daily.Update: the composite that aggregates several daily resources' results is not modelled. `DailyResource.update` discards the ranges of both runs, so only the exception, if any, is reported. `CmeDaily.update` (cme.py:35-41) collects each `Active.update()` result, which is always None, and passes the list to `reduce_ranges`, where `zip(*ranges)` raises TypeError as soon as there is one active; that failure is not modelled.
- Cme.IsDigit: `\d` is restricted to ASCII digits. Python's Unicode `\d` also accepts other decimal digits, both in the file-name filter and in strptime's `%Y%m%d` pattern, and `int()` converts them. For a name such as `DailyBulletin_pdf_` followed by an Arabic-Indic year and an ASCII month and day, `handle` returns a date that the model does not yield.
- `Active.Cache.get` is not modelled. It only pairs `file()` with a download.
- MonetaryDelta.Deltas works on a list of values. pandas Series label indexing (`mbase[0]` on a Series whose index does not contain 0) is not modelled.
- Floating point is modelled as exact reals, in the deltas, the prices and the division by run length.
- Downloader.ExtendCache: the content of the price file after a failed download is not modelled. Python has by then already truncated the file, and the model only reports the exception.
- Downloader.GetPrices returns only the aligned prices. The name, url and `new` flag that get_prices also returns come from scraping, which is not modelled.
- Of `downloader.update`, only the early-return test (`UpToDate`) and the dates file it appends to (`DatesFile`) are modelled. The rest writes files from scraped pages.
- Store.GetRange assumes the frame's order when reading the first and last rows, as `iloc[0]`/`iloc[-1]` do. It does not sort the frame.
