# GLEIF data loader: a Dafny model

This project models the core of a KYC data loader for the Global Legal Entity Identifier Foundation (GLEIF) datasets and proves properties of that model. The loader reads Level 1 records (legal entities, one per LEI) and Level 2 records (parent/child relationships between LEIs). It normalizes both to a KYC schema, keeps a data-quality report, and persists versioned snapshots.

The model covers three source files:

- `src/data_loader/processors.py`. These are the source loaders:
  - `first_existing` picks a key column from priority-ordered candidate names.
  - The Level 1 and Level 2 loaders keep and rename the key columns.
  - `parse_xml_records` flattens streamed XML records into name/text maps.
  - `join_lei_and_relationships` left-joins entities with their relationships.
- `src/data_loader/normalization.py`. This is the quality report and the two normalizers:
  - `DataQualityReport` is modelled as `Quality.QualityReport`.
  - `LEIDataNormalizer` is modelled as `Normalizers.LeiNormalizer`.
  - `RelationshipDataNormalizer` is modelled as `Normalizers.RelationshipNormalizer`.
  - Each normalizer runs column mapping, type coercion, required-field filtering and, for relationships, referential-integrity filtering. It then runs status standardization, duplicate detection and, for entities, entity-id generation.
- `src/data_loader/persistence.py`. This is `ParquetPersistence`, modelled as `Persistence.SnapshotStore`:
  - It writes snapshots keyed by version, deduplicating on the way in.
  - It reads the latest or a named version, lists versions and exports to CSV.

A batch (a pandas DataFrame) is `Tables.Frame<C>`: an ordered list of column names and a sequence of rows, each row a map from column name to cell. `WellFormed` means the column names are distinct and every row has exactly those keys. Raw cells are `Option<string>`, because the loaders read every column as text and `None` is a missing value. Normalized cells are `Coercion.Cell`, one of `Null`, `Text`, `Date` or `Number`.

Warnings in the quality report are `Quality.Issue` values. Each holds the quantities its sentence reports (column and count), not the formatted text.

The modules follow the source:

| module | what it holds |
|---|---|
| `Text` | Python's `str.strip()`, ASCII `str.upper()`, `in`, `endswith` and lexicographic string order |
| `Tables` | frames, row filtering and counting |
| `Quality` | the quality report |
| `Schema` | the synonym tables and `_map_columns` |
| `Coercion` | `_convert_types` |
| `Stages` | the filtering, standardization, duplicate, entity-id and null-analysis stages |
| `Normalizers` | the two normalizer classes and their pipelines |
| `Processors` | `processors.py` |
| `Persistence` | `persistence.py` |

## Model

| member | source | states |
|---|---|---|
| Text.StripLeft | src/data_loader/normalization.py:200 | the result is a suffix of the input; what was removed is all whitespace, in Python's `str.isspace` sense; the result does not start with whitespace |
| Text.StripRight | src/data_loader/normalization.py:200 | the result is a prefix of the input; what was removed is all whitespace; the result does not end with whitespace |
| Text.Strip | src/data_loader/normalization.py:216 | `str.strip()`: the result is no longer than the input and has no whitespace at either end; it is empty exactly when the input is all whitespace |
| Text.StripLeftSplit | src/data_loader/normalization.py:216 | the input is the result preceded by whitespace only |
| Text.StripRightSplit | src/data_loader/normalization.py:216 | the input is the result followed by whitespace only |
| Text.StripSplit | src/data_loader/normalization.py:216 | `str.strip()` cuts nothing but whitespace: the input is the result with whitespace before it and whitespace after it |
| Text.StripLeftSkips | src/data_loader/normalization.py:216 | leading whitespace in front of text that does not start with whitespace is exactly what `StripLeft` removes |
| Text.StripRightSkips | src/data_loader/normalization.py:216 | trailing whitespace behind text that does not end with whitespace is exactly what `StripRight` removes |
| Text.StripPadded | src/data_loader/normalization.py:216 | the cut is unique: text with no whitespace at either end, padded with whitespace, strips back to itself; with `StripSplit` this pins the result down completely |
| Text.StripIdempotent | src/data_loader/normalization.py:200 | stripping twice is stripping once |
| Text.Upper | src/data_loader/normalization.py:210 | upper-casing keeps the length, leaves no lower-case letter, keeps every other character and shifts each lower-case letter to its capital |
| Text.UpperOfUpper | src/data_loader/normalization.py:387 | text without lower-case letters is unchanged by upper-casing |
| Text.UpperIdempotent | src/data_loader/normalization.py:377 | upper-casing twice is upper-casing once |
| Text.EndsWithContains | src/data_loader/processors.py:65 | a tag that ends with the record tag also contains it |
| Text.LessIrreflexive | src/data_loader/persistence.py:161 | no string sorts before itself |
| Text.LessTransitive | src/data_loader/persistence.py:161 | the order `sorted` uses on names is transitive |
| Text.LessTotal | src/data_loader/persistence.py:161 | of two different strings, one sorts before the other |
| Text.LessAsymmetric | src/data_loader/persistence.py:161 | two strings never sort before each other |
| Text.LessOrEqualTransitive | src/data_loader/persistence.py:203-210 | the non-strict order is transitive |
| Text.LessCommonPrefix | src/data_loader/persistence.py:161 | a shared prefix, such as `legal_entities_`, does not change how two names compare |
| Text.LessIgnoresSuffix | src/data_loader/persistence.py:161 | when neither string is a prefix of the other, appended suffixes, such as `.parquet`, do not change their order |
| Tables.Filter | src/data_loader/normalization.py:233 | a boolean mask keeps exactly the rows that pass it, and never more rows than it was given |
| Tables.CountWhere | src/data_loader/normalization.py:272 | a column count never exceeds the number of rows |
| Tables.FilterRemovesFailing | src/data_loader/normalization.py:229-233 | rows kept plus rows counted as removed is the batch size |
| Tables.FilterIdentity | src/data_loader/normalization.py:229-233 | a mask changes the batch if and only if some row fails it |
| Tables.NoFailingKeepsAll | src/data_loader/normalization.py:229-233 | when no row fails, the batch is unchanged |
| Tables.CountFailingZero | src/data_loader/normalization.py:229-231 | the removed count is zero if and only if every row passes |
| Tables.SubsequenceReflexive | src/data_loader/normalization.py:233 | a batch is an order-preserving subsequence of itself |
| Tables.SubsequenceTransitive | src/data_loader/normalization.py:227-233 | successive filters still keep rows in their original order |
| Tables.FilterIsSubsequence | src/data_loader/normalization.py:233 | filtering keeps the surviving rows in their original order |
| Tables.FilterDistinct | src/data_loader/normalization.py:191 | filtering distinct column names leaves them distinct |
| Tables.CountWhereBounds | src/data_loader/normalization.py:272-273 | a count equals the batch size if and only if every row qualifies; it is positive if and only if some row does |
| Quality.ValidityRate | src/data_loader/normalization.py:50 | the rate is `valid / max(total, 1) * 100`, which lies in [0, 100]; it is 0 for an empty batch and 100 exactly when every record is valid |
| Quality.FractionAtMostOne | src/data_loader/normalization.py:50 | a part over a positive whole is a fraction in [0, 1] |
| Quality.QualityReport.constructor | src/data_loader/normalization.py:24-32 | a new report has zero counters and no warnings, errors or null entries |
| Quality.QualityReport.AddWarning | src/data_loader/normalization.py:34-35 | the warning is appended and nothing else changes |
| Quality.QualityReport.AddError | src/data_loader/normalization.py:37-38 | the error is appended and nothing else changes |
| Quality.QualityReport.Report | src/data_loader/normalization.py:40-51 | the summary carries the total, valid and invalid counts, the duplicate count, the integrity issues and the null analysis as they stand, and the number of warnings and errors; its validity rate lies in [0, 100] and is valid/total*100 |
| Schema.TargetsSnoc | src/data_loader/normalization.py:59-109 | the target set of a table is that of its first entries plus its last target |
| Schema.Renames | src/data_loader/normalization.py:161-178 | the rename map renames only present columns, only to absent targets, only along table entries, and never two columns to one target |
| Schema.RenamesFirstMatch | src/data_loader/normalization.py:161-178 | each renamed column is the first eligible synonym of its target in table order, and every target with an eligible synonym is claimed by it |
| Schema.RenamesAgree | src/data_loader/normalization.py:161-178 | when no two present synonyms compete for one absent target, the corrected map is the map the source builds |
| Schema.AsWrittenRenamesEveryEligible | src/data_loader/normalization.py:161-163 | as written, every present synonym of an absent target is renamed, so nothing stops two synonyms from claiming one target |
| Schema.Relabel | src/data_loader/normalization.py:180 | `rename` keeps the column order and relabels each column through the map |
| Schema.AsWrittenDuplicatesLabel | src/data_loader/normalization.py:161-180 | as written, two present synonyms of one absent target produce a duplicate column label |
| Schema.RelabelDistinct | src/data_loader/normalization.py:180 | with first-match renaming, distinct columns stay distinct |
| Schema.AddMissing | src/data_loader/normalization.py:182-185 | adding missing targets keeps the existing columns in front, adds every target, and keeps the names distinct |
| Schema.Project | src/data_loader/normalization.py:187-191 | the projection keeps exactly the columns in the mapped set |
| Schema.MappedColumns | src/data_loader/normalization.py:157-194 | after mapping, every canonical column is present, no unmapped column survives, and the names are distinct |
| Schema.MapFrame | src/data_loader/normalization.py:157-194 | mapping keeps the batch well formed and keeps its row count |
| Schema.MapFrameValues | src/data_loader/normalization.py:180-185 | a renamed column carries its source values; a column added for a missing target is all null |
| Schema.BuildRenames | src/data_loader/normalization.py:160-178 | the loop that builds the rename map produces the first-match map |
| Schema.AddMissingColumns | src/data_loader/normalization.py:183-185 | the loop that adds missing columns computes the specified column list |
| Schema.MapColumns | src/data_loader/normalization.py:157-194 | `_map_columns` returns the specified mapped batch |
| Schema.EntityLegalNameCollision | src/data_loader/normalization.py:62-63 | as written, a Level 1 batch with both `LegalName` and `Entity.LegalName` gets two `legalName` columns |
| Schema.EntityLegalNameCorrected | src/data_loader/normalization.py:62-63 | with first-match renaming, the same batch gets one `legalName` column |
| Schema.TargetsCanonical | src/data_loader/normalization.py:59-109 | every target of a separated table is a canonical camel-case name |
| Schema.TargetsOfConcat | src/data_loader/normalization.py:188-190 | the targets of the two tables together are the union of their targets |
| Schema.RenamesOfCanonical | src/data_loader/normalization.py:161-178 | a batch whose columns are all canonical names renames nothing |
| Schema.AddMissingPresent | src/data_loader/normalization.py:183-185 | when every target is present, no column is added |
| Schema.MappedColumnsFixed | src/data_loader/normalization.py:157-194 | the columns of an already mapped batch are a fixed point of mapping |
| Schema.MapFrameIdempotent | src/data_loader/normalization.py:157-194 | mapping an already mapped batch changes nothing |
| Schema.MappedRowIdentity | src/data_loader/normalization.py:180-191 | a row is unchanged by an empty renaming over its own columns |
| Schema.SeparatesConcat | src/data_loader/normalization.py:188-190 | two separated tables together are separated |
| Schema.EntityTablesSeparateNames | src/data_loader/normalization.py:59-109 | in the Level 1 tables, every target is canonical and every canonical source maps to itself |
| Schema.RelationshipTablesSeparateNames | src/data_loader/normalization.py:282-291 | the same holds for the Level 2 tables |
| Coercion.StripKeepsTrimmed | src/data_loader/normalization.py:216 | stripping already-trimmed text changes nothing |
| Coercion.ToDate | src/data_loader/normalization.py:206 | a date cell is null exactly when the value is missing or does not parse; otherwise it is the parsed instant |
| Coercion.Clip | src/data_loader/normalization.py:394 | `clip(0, 100)`: the result lies in the bounds, is the input when the input is inside, and is the nearer bound otherwise |
| Coercion.ToPercentage | src/data_loader/normalization.py:390-394 | the ownership percentage is null exactly when the value is missing or not numeric; otherwise it is the parsed number clipped to [0, 100]: 0 below the range, 100 above it, the number itself inside it |
| Coercion.TrimmedText | src/data_loader/normalization.py:213-216 | a value becomes its text with the surrounding whitespace stripped; a missing value becomes the text "nan"; the result is trimmed and trimmed text is kept as is |
| Coercion.UpperKeepsTrimmed | src/data_loader/normalization.py:377 | upper-casing keeps text trimmed |
| Coercion.UpperText | src/data_loader/normalization.py:209-210 | a status becomes the upper case of its text, which has no lower-case letter; upper-case text is kept as is |
| Coercion.CanonicalLei | src/data_loader/normalization.py:375-377 | a relationship LEI becomes the upper case of its stripped text ("NAN" when missing), which is trimmed and has no lower-case letter; text already in that form is kept |
| Coercion.ConvertEntityCell | src/data_loader/normalization.py:196-218 | per column: `lei` and the listed string columns become their stripped text, the status its upper-cased text, the three date columns the parsed date (or null), and any other column is left as loaded |
| Coercion.ConvertRelationshipCell | src/data_loader/normalization.py:372-396 | per column: the two LEIs become their stripped, upper-cased text, the status its upper-cased text, the two date columns the parsed date (or null), the percentage the clipped number (or null), and any other column is left as loaded |
| Coercion.ConvertEntityTypes | src/data_loader/normalization.py:196-218 | coercion keeps the columns, rows and keys and converts each cell by its column |
| Coercion.ConvertRelationshipTypes | src/data_loader/normalization.py:372-396 | the same for relationship batches |
| Stages.TotalRemovedConcat | src/data_loader/normalization.py:232 | the rows reported removed by two warning lists add up |
| Stages.RequireFields | src/data_loader/normalization.py:220-236 | required-field filtering only keeps rows of the batch |
| Stages.RequireFieldsKeeps | src/data_loader/normalization.py:227-233 | a row survives if and only if it has a non-null, non-empty value in every required column that the batch has |
| Stages.RequireFieldsSubsequence | src/data_loader/normalization.py:233 | the surviving rows keep their order |
| Stages.RequireFieldsWarnings | src/data_loader/normalization.py:230-232 | rows kept plus the rows the warnings report removed is the batch size; each warning names a required, present column and a positive count (one per column: RequireFieldsWarningPerColumn) |
| Stages.RequireFieldsOneEach | src/data_loader/normalization.py:227-233 | with distinct required columns, no two warnings name the same column |
| Stages.RequireFieldsWarnsAt | src/data_loader/normalization.py:227-233 | the pass over a present required column warns exactly when it removed rows from the survivors of the earlier passes, and the warning reports that count |
| Stages.RequireFieldsWarningPerColumn | src/data_loader/normalization.py:227-233 | with distinct required columns, exactly one warning per present required column that removed rows, carrying the number of rows that pass removed, and none for any other column |
| Stages.CheckSide | src/data_loader/normalization.py:423-430 | one side of the integrity check only keeps rows of the batch |
| Stages.CheckReferences | src/data_loader/normalization.py:414-443 | the integrity check only keeps rows of the batch |
| Stages.CheckSideFacts | src/data_loader/normalization.py:423-440 | rows kept plus rows counted invalid is the batch size; the warning reports that count; order is kept; a row survives if and only if its LEI on that side is a valid LEI |
| Stages.CheckReferencesCounts | src/data_loader/normalization.py:414-443 | rows kept plus integrity issues is the batch size, and the warnings report exactly the issues |
| Stages.CheckReferencesKeeps | src/data_loader/normalization.py:423-440 | a relationship survives if and only if both its child and its parent LEI are valid LEIs |
| Stages.DefaultStatuses | src/data_loader/normalization.py:248 | a row whose status is outside the allowed set gets the text ACTIVE there and keeps every other cell; every other row is unchanged; no row is added, dropped or moved |
| Stages.Standardize | src/data_loader/normalization.py:238-250 | standardization keeps rows and keys, touches only the status column, keeps allowed statuses, sets every status outside the allowed set to ACTIVE (so every status ends up allowed), does nothing when the batch has no status column, and removes nothing |
| Stages.StandardizeWarnsIffRewritten | src/data_loader/normalization.py:242-248 | a warning is issued exactly when some status is rewritten, and it reports the number of unknown statuses |
| Stages.OccurrencesPositive | src/data_loader/normalization.py:255 | a key occurs in the batch if and only if its count is positive |
| Stages.CountRepeatedAtLeast | src/data_loader/normalization.py:255-256 | every occurrence of a repeated key is counted |
| Stages.CountRepeatedZero | src/data_loader/normalization.py:255-256 | the count is zero if and only if no key repeats |
| Stages.OccurrencesTwo | src/data_loader/normalization.py:255 | two equal keys at different rows make that key repeated |
| Stages.OccurrencesOneDistinct | src/data_loader/normalization.py:255 | keys that each occur once are distinct |
| Stages.DistinctOccursOnce | src/data_loader/normalization.py:255 | distinct keys occur at most once each |
| Stages.DuplicateCountNotOne | src/data_loader/normalization.py:255-256 | with `keep=False` the duplicate count is never exactly one |
| Stages.DuplicateCountZeroIff | src/data_loader/normalization.py:255-258 | the duplicate count is zero if and only if the keys are distinct |
| Stages.LeiKeys | src/data_loader/normalization.py:255 | the key of each row is its `lei` cell |
| Stages.PairKeys | src/data_loader/normalization.py:460 | the key of each row is its (childLei, parentLei) pair |
| Stages.DuplicateIssue | src/data_loader/normalization.py:257-258 | a duplicate warning is issued exactly when the count is positive, and it reports no removed rows |
| Stages.EntityId | src/data_loader/normalization.py:263-265 | the entity id is the first 16 characters of the LEI's MD5 hex digest, or the whole digest if it is shorter |
| Stages.GenerateEntityIds | src/data_loader/normalization.py:261-266 | id generation adds the `entity_id` column, derives each id from its row's LEI, and leaves every other cell unchanged |
| Stages.EntityIdsFollowLei | src/data_loader/normalization.py:263-265 | rows with equal LEIs get equal entity ids |
| Stages.Percentage | src/data_loader/normalization.py:272 | a positive part of a whole is a percentage in (0, 100], and it is 100 exactly when the part is the whole |
| Stages.NullAnalysis | src/data_loader/normalization.py:268-275 | a column is reported if and only if it has nulls; its value is its null percentage, in (0, 100] |
| Stages.NullAnalysisFull | src/data_loader/normalization.py:268-275 | a column is reported at 100 exactly when every row is null there |
| Normalizers.SubsetWellFormed | src/data_loader/normalization.py:233 | rows drawn from a well-formed batch form a well-formed batch over its columns |
| Normalizers.EntityKeyColumns | src/data_loader/normalization.py:59-109 | the Level 1 mapping provides `lei`, `legalName` and `entityStatus` |
| Normalizers.RelationshipKeyColumns | src/data_loader/normalization.py:282-291 | the Level 2 mapping provides `childLei`, `parentLei` and `relationshipStatus` |
| Normalizers.EntityTyped | src/data_loader/normalization.py:133-136 | mapping then coercion gives a well-formed batch of the same size with the key columns and text LEIs |
| Normalizers.RelationshipTyped | src/data_loader/normalization.py:319-322 | mapping then coercion gives a well-formed batch of the same size with the relationship key columns |
| Normalizers.RequireColumn | src/data_loader/normalization.py:228-233 | one required column drops the rows without a value there and warns, with the count, when any were dropped |
| Normalizers.RequireFieldsStep | src/data_loader/normalization.py:227-235 | one pass of the loop: a present required column filters the batch and may add its warning; an absent one does nothing |
| Normalizers.ValidateRequiredFields | src/data_loader/normalization.py:220-236 | the method returns the specified filtered batch and appends the specified warnings |
| Normalizers.CheckReferenceSide | src/data_loader/normalization.py:423-430 | one side of the integrity check returns the specified rows, appends its warning and adds its invalid count to the integrity issues |
| Normalizers.CheckReferentialIntegrity | src/data_loader/normalization.py:414-443 | the child side and then the parent side are applied, and the issue counter grows by the rows removed |
| Normalizers.StandardizeValues | src/data_loader/normalization.py:238-250 | the method returns the standardized batch and appends the specified warning |
| Normalizers.DetectLeiDuplicates | src/data_loader/normalization.py:252-259 | with an `lei` column, the report's duplicate count is the number of rows whose LEI repeats, with a warning when it is positive; without one, nothing changes |
| Normalizers.DetectPairDuplicates | src/data_loader/normalization.py:457-465 | the same for (childLei, parentLei) pairs |
| Normalizers.GetNullAnalysis | src/data_loader/normalization.py:268-275 | the loop computes the specified null analysis |
| Normalizers.MapAndConvertEntities | src/data_loader/normalization.py:133-136 | mapping then coercion of a Level 1 batch |
| Normalizers.MapAndConvertRelationships | src/data_loader/normalization.py:319-322 | mapping then coercion of a Level 2 batch |
| Normalizers.RunEntityStages | src/data_loader/normalization.py:138-148 | the entity stages return the specified batch, append their warnings and set the duplicate count; the batch never grows |
| Normalizers.FilterRelationships | src/data_loader/normalization.py:324-328 | required-field and integrity filtering return the specified rows and update warnings and issues |
| Normalizers.FinishRelationships | src/data_loader/normalization.py:330-334 | standardization then duplicate detection of the linked relationships |
| Normalizers.RunRelationshipStages | src/data_loader/normalization.py:324-334 | the relationship stages return the specified batch and update warnings, duplicates and issues; the batch never grows |
| Normalizers.RecordTotals | src/data_loader/normalization.py:150-152 | the totals are recorded and invalid is total minus valid |
| Normalizers.LeiNormalizer.constructor | src/data_loader/normalization.py:116-117 | a normalizer starts with the Level 1 tables, the lei and legalName required columns and a fresh report whose every counter is zero and whose warnings, errors and null analysis are empty |
| Normalizers.LeiNormalizer.NormalizeLeiData | src/data_loader/normalization.py:119-155 | the run returns the batch of the entity pipeline and its own report; that report holds the pipeline's warnings and duplicates, total = input rows and valid = output rows; every returned row has a non-null, non-empty LEI and legal name, a status in the closed set and the id derived from its LEI |
| Normalizers.RelationshipNormalizer.constructor | src/data_loader/normalization.py:297-298 | a normalizer starts with the Level 2 tables, the childLei and parentLei required columns and a fresh report whose every counter is zero and whose warnings, errors and null analysis are empty |
| Normalizers.RelationshipNormalizer.NormalizeRelationshipData | src/data_loader/normalization.py:300-340 | the run returns the batch of the relationship pipeline and a report with its warnings, duplicates and integrity issues; total = input rows and valid = output rows; every returned row has both LEIs present and among the valid entity LEIs, and a status in the closed set |
| Normalizers.EntityStagesCount | src/data_loader/normalization.py:138-151 | output rows plus the rows the warnings report removed equals the input rows |
| Normalizers.RelationshipStagesCount | src/data_loader/normalization.py:324-336 | the same for relationships, and the integrity issues never exceed the batch |
| Normalizers.EntityPipelineCount | src/data_loader/normalization.py:130-152 | every invalid record of a Level 1 run is accounted for by a removal warning |
| Normalizers.EntityRowStep | src/data_loader/normalization.py:241-266 | a row through status standardization and id generation keeps every other cell, gets a closed status and the id derived from its LEI |
| Normalizers.EntityStagesOutput | src/data_loader/normalization.py:138-148 | the entity stages leave one row per row with a value in every required column, in order, each keeping its other cells, with its status closed and its id derived from its LEI |
| Normalizers.RelationshipLinkedRows | src/data_loader/normalization.py:324-328 | the rows that survive required-field and referential-integrity filtering are exactly the input rows with a value in every required column and both LEIs valid, in their original order |
| Normalizers.RelationshipStagesOutput | src/data_loader/normalization.py:324-331 | the relationship stages leave one row per linked row, in order, each keeping its other cells, with its status closed |
| Normalizers.EntityStagesRows | src/data_loader/normalization.py:138-148 | with the LEI and the legal name required, every output row has both, a closed status and its derived id |
| Normalizers.RelationshipStagesRows | src/data_loader/normalization.py:324-331 | with both LEIs required, every output row has both LEIs present and valid and a closed status |
| Normalizers.EntityPipelineOutput | src/data_loader/normalization.py:119-155 | every row `normalize_lei_data` returns has a non-null, non-empty LEI and legal name, a status in the closed set and the id derived from its LEI |
| Normalizers.RelationshipPipelineOutput | src/data_loader/normalization.py:300-340 | every row `normalize_relationship_data` returns has both LEIs present and among the valid entity LEIs, and a status in the closed set |
| Normalizers.RelationshipPipelineCount | src/data_loader/normalization.py:316-337 | every invalid record of a Level 2 run is accounted for by a removal warning |
| Persistence.KeepFirstFrom | src/data_loader/persistence.py:62 | keep-first deduplication keeps only rows of the batch, whose keys were not seen before, with distinct keys |
| Persistence.KeepFirst | src/data_loader/persistence.py:62 | `drop_duplicates(keep="first")` never grows the batch, leaves distinct keys, and keeps only rows of the batch |
| Persistence.KeepFirstFromSubsequence | src/data_loader/persistence.py:62 | deduplication keeps rows in their original order |
| Persistence.KeepFirstFromMembers | src/data_loader/persistence.py:62 | a row is kept if and only if its key was not seen and it is the first row with that key |
| Persistence.KeepFirstFromIdentity | src/data_loader/persistence.py:56-62 | a batch with distinct, unseen keys is unchanged |
| Persistence.KeepFirstFacts | src/data_loader/persistence.py:62 | deduplication keeps order, keeps exactly the first row of each key, and loses no key |
| Persistence.FirstIndexExists | src/data_loader/persistence.py:62 | every key has a first occurrence |
| Persistence.KeepFirstIdentity | src/data_loader/persistence.py:56-62 | a batch without duplicates is written as is |
| Persistence.DedupEntities | src/data_loader/persistence.py:55-62 | with an `lei` column, entity rows are deduplicated on `lei`, keeping the first; without one, the batch is unchanged |
| Persistence.DedupRelationships | src/data_loader/persistence.py:98-105 | with both LEI columns, relationship rows are deduplicated on the pair; otherwise the batch is unchanged |
| Persistence.DedupEntitiesFacts | src/data_loader/persistence.py:55-62 | the written batch is well formed, ordered, has unique LEIs and keeps every LEI; a duplicate-free batch is unchanged |
| Persistence.DedupRelationshipsFacts | src/data_loader/persistence.py:98-105 | the written batch is well formed, ordered and has unique (child, parent) pairs; a duplicate-free batch is unchanged |
| Persistence.VersionOr | src/data_loader/persistence.py:50-51 | the version is the given one, or the current timestamp when none is given |
| Persistence.GreatestVersionUnique | src/data_loader/persistence.py:203-210 | there is at most one greatest version |
| Persistence.GreatestVersionExists | src/data_loader/persistence.py:203-210 | a non-empty set of versions has a greatest one |
| Persistence.Latest | src/data_loader/persistence.py:160-164 | "latest" names the greatest stored version |
| Persistence.ExtensionSortsFirst | src/data_loader/persistence.py:161 | as written: when version b extends version a with a character below '.', the file of a sorts last while b is the greater version |
| Persistence.LatestFileDisagreement | src/data_loader/persistence.py:161-164 | as written: for versions "2024-01" and "2024-01-15", the last file is that of "2024-01" while the greatest version is "2024-01-15" |
| Persistence.LatestAgreement | src/data_loader/persistence.py:161 | when no version is a prefix of another, as with timestamps of one width, the last file and the greatest version agree |
| Persistence.Insert | src/data_loader/persistence.py:203 | inserting into a sorted list of versions keeps it strictly sorted and adds exactly that version |
| Persistence.LastIsLatest | src/data_loader/persistence.py:203-210 | the last of a sorted list of versions is the greatest |
| Persistence.SortedVersions | src/data_loader/persistence.py:203-210 | the loop lists exactly the given versions, strictly sorted |
| Persistence.GreatestOf | src/data_loader/persistence.py:160-164 | the loop finds the greatest version |
| Persistence.SnapshotStore.constructor | src/data_loader/persistence.py:24-32 | the store keeps its output directory and starts without snapshots |
| Persistence.SnapshotStore.WriteLegalEntities | src/data_loader/persistence.py:35-76 | the deduplicated batch is stored under its version, and the path is `<dir>/legal_entities_<version>.parquet` |
| Persistence.SnapshotStore.WriteRelationships | src/data_loader/persistence.py:78-119 | the deduplicated batch is stored under its version, and the path is `<dir>/relationships_<version>.parquet` |
| Persistence.SnapshotStore.WriteQualityReport | src/data_loader/persistence.py:121-148 | the report is stored under its version, and the path is `<dir>/quality_report_<version>.json` |
| Persistence.SnapshotStore.Read | src/data_loader/persistence.py:150-173 | a read returns the latest snapshot or the named one, or fails with no snapshots or file not found |
| Persistence.SnapshotStore.ReadLegalEntities | src/data_loader/persistence.py:150-173 | reading entities is the specified read over the entity snapshots |
| Persistence.SnapshotStore.ReadRelationships | src/data_loader/persistence.py:175-198 | reading relationships is the specified read over the relationship snapshots |
| Persistence.SnapshotStore.ListVersions | src/data_loader/persistence.py:200-212 | each list holds exactly the stored versions, strictly sorted |
| Persistence.SnapshotStore.ExportToCsv | src/data_loader/persistence.py:214-248 | an unknown data type fails; otherwise a failed read fails the export, and a successful one stores the batch at the given path or at `<dir>/<type>_<version>.csv` |
| Persistence.ReadAfterWrite | src/data_loader/persistence.py:35-76 | after a write, reading that version returns the batch, and reads of other versions are unchanged |
| Persistence.LatestIsLastListed | src/data_loader/persistence.py:160-164 | reading "latest" fails exactly when nothing is listed; otherwise it returns the snapshot of the last listed version |
| Processors.FirstIn | src/data_loader/processors.py:35-48 | the result is none if and only if no candidate is a column; otherwise it is the earliest candidate that is one |
| Processors.FirstExisting | src/data_loader/processors.py:45-48 | the loop returns the first existing candidate |
| Processors.Targets | src/data_loader/processors.py:129-133 | the new names, in order |
| Processors.RenameRow | src/data_loader/processors.py:126-135 | a renamed row has exactly the new names as keys, each carrying its source column's value |
| Processors.SelectRename | src/data_loader/processors.py:125-135 | select-then-rename keeps the row count; the columns are the new names; the batch is well formed and values follow their columns |
| Processors.LoadLeiData | src/data_loader/processors.py:109-140 | the loader fails if and only if no LEI candidate is a column; otherwise it keeps the LEI, name and status columns it found, renamed to `lei`, `legal_name` and `entity_status` |
| Processors.LeiRenamingShape | src/data_loader/processors.py:125-133 | the kept columns exist, the new names are distinct, and they are `lei` followed by the optional name and status |
| Processors.LoadRrData | src/data_loader/processors.py:166-211 | without a start-node or end-node column, the loader returns an empty batch with the four standard columns; otherwise it keeps the columns it found, renamed |
| Processors.RrRenamingShape | src/data_loader/processors.py:193-204 | the kept columns exist, the new names are distinct, and they are `child_lei`, `parent_lei`, then the optional type and status |
| Processors.EmptyFallbackWellFormed | src/data_loader/processors.py:190 | the empty fallback batch is well formed |
| Processors.LocalNameSuffix | src/data_loader/processors.py:74 | the local name is the part of the tag after its last '}', or the whole tag when it has none |
| Processors.RecordOfEmpty | src/data_loader/processors.py:72-80 | an element yields no record exactly when none of its nodes has non-blank text, as for a container whose records were cleared before its own end event |
| Processors.RecordOfClean | src/data_loader/processors.py:76-77 | every value in a record is non-empty stripped text |
| Processors.RecordOfKeys | src/data_loader/processors.py:72-77 | a name is a key of the record if and only if some node with that local name has non-blank text |
| Processors.RecordOfKeyFrom | src/data_loader/processors.py:72-77 | induction step of the above: a new key comes from some node |
| Processors.RecordOfKeyTo | src/data_loader/processors.py:76-77 | induction step of the above: a named node's name is a key of the record |
| Processors.RecordOfValues | src/data_loader/processors.py:72-77 | a key holds the stripped text of the last node of that name, because later nodes overwrite earlier ones |
| Processors.BuildRecord | src/data_loader/processors.py:71-77 | the loop over the element's nodes builds the specified record |
| Processors.IsRecordTagIsSubstring | src/data_loader/processors.py:65 | the `endswith` half of the tag test adds nothing to the containment test |
| Processors.Matched | src/data_loader/processors.py:63-65 | at most every element is a record element |
| Processors.MatchedOrigin | src/data_loader/processors.py:65 | every record element comes from the stream and passes the tag test |
| Processors.MatchedStep | src/data_loader/processors.py:63-65 | one more element of the stream adds it to the record elements exactly when it passes the tag test |
| Processors.MatchedPrefix | src/data_loader/processors.py:63-68 | the record elements of a prefix of the stream are a prefix of all record elements |
| Processors.Records | src/data_loader/processors.py:79-80 | no empty record is yielded |
| Processors.RecordsStep | src/data_loader/processors.py:79-83 | one more record element yields its record exactly when that record is non-empty |
| Processors.RecordsOrigin | src/data_loader/processors.py:71-80 | every yielded record is the record of some stream element |
| Processors.Processed | src/data_loader/processors.py:66-68 | the number of record elements processed is all of them for no or zero `nrows`, none for a negative `nrows`, and otherwise at most `nrows` |
| Processors.YieldRecord | src/data_loader/processors.py:71-80 | one record element adds its record to those yielded exactly when the record is non-empty |
| Processors.ParseRecordsAt | src/data_loader/processors.py:63-83 | stopping where the loop stops yields the specified records |
| Processors.ParseXmlRecords | src/data_loader/processors.py:51-83 | the streaming loop yields the specified records |
| Processors.ParseRecordsBounds | src/data_loader/processors.py:51-83 | yielded records are non-empty and come from elements whose tag contains the record tag; there are at most `nrows` of them when it is positive and none when it is negative |
| Processors.ChildRows | src/data_loader/processors.py:224 | the relationships matched to an entity are exactly those whose `child_lei` equals its `lei`: a subsequence of the relationships, as many as match, in their original order; as in a pandas merge, a missing key matches a missing key |
| Processors.NullRow | src/data_loader/processors.py:224 | an unmatched entity gets null relationship columns |
| Processors.RowsForShape | src/data_loader/processors.py:224 | an entity yields one row per matching relationship, in order, or one null-padded row when none matches |
| Processors.JoinRows | src/data_loader/processors.py:224 | a left join never loses an entity row |
| Processors.LeftJoin | src/data_loader/processors.py:214-229 | the joined columns are the entity columns followed by the relationship columns, with at least one row per entity |
| Processors.JoinRowsMembers | src/data_loader/processors.py:224 | a joined row is exactly a row produced for some entity |
| Processors.JoinRowKeys | src/data_loader/processors.py:224 | every joined row has the entity columns and the relationship columns |
| Processors.JoinKeepsEntity | src/data_loader/processors.py:224 | each entity yields max(1, its matches) rows, each carrying the entity's values |
| Processors.JoinAddsRelationships | src/data_loader/processors.py:224 | the joined rows carry each matching relationship's values, or nulls when none matches |
| Processors.LeftJoinWellFormed | src/data_loader/processors.py:224 | with disjoint column names, the joined batch is well formed |
| Processors.JoinRowCount | src/data_loader/processors.py:224 | when each entity has at most one parent relationship, the join has exactly one row per entity |

## Left out

- File I/O is not modelled: reading CSV and XML files, Parquet and JSON serialization, file sizes, `mkdir` and logging or printing. The XML stream enters the model as a sequence of elements. Each element holds its tag and its nodes, meaning the element and its descendants in document order. A CSV file enters as a frame.
- `load_large_csv` (pandas' `read_csv` with `dtype=str`) and the construction of a DataFrame from the XML records are not modelled. The loaders take the frame these produce.
- `elem.clear()` is not modelled as an operation. The model takes the nodes each element has when `iter()` walks it, which is after every earlier matched element was cleared. The tag test is a substring test, so a container such as `LEIRecords` also matches `LEIRecord`. Its end event comes after all its records were cleared, so it has no non-blank text left and yields nothing (`Processors.RecordOfEmpty`), though it still counts against `nrows`. Given uncleared nodes, the model would wrongly yield that container as one merged record.
- The pandas date-time and numeric parsers and the MD5 digest are library routines. They enter the model as parameters (`Coercion.Library`), and the clock enters as the `now` argument of the write methods.
- `Coercion.AsText` renders every missing value as the text "nan". pandas writes "nan" for a value missing from the file. It writes "None" for the Python `None` that `_map_columns` stores in a column it adds. The model does not tell the two apart. Either way the text is fixed and non-empty, so a row with a missing `lei` or `legalName` passes required-field validation in both.
- `Text.Upper` maps ASCII letters only. Python's `str.upper` also maps non-ASCII letters (and can change the length, as for "ß").
- `Quality.ValidityRate` is exact. The source also rounds to two decimals, as does the null analysis (`Stages.Percentage`).
- `Persistence.SnapshotStore.constructor` starts with an empty store. Files already in the output directory are not modelled.
- `Persistence.SnapshotStore.ListVersions` derives versions from the store's keys. The source strips the prefix with `str.replace`, which would also remove a copy of the prefix inside the version itself.
- `Persistence.SnapshotStore.WriteQualityReport` keeps the report summary. `report_type` has no effect in the source and is accepted and ignored.
- `Persistence.Join` joins a directory and a name with "/", where the source uses `pathlib`.
- `Processors.LeftJoinWellFormed` requires disjoint column names. pandas would rename clashing columns with `_x`/`_y` suffixes, and that renaming is not modelled.
- The warning and error messages are not formatted as text. Each warning keeps the column and counts it reports.
- `Persistence.Latest` is specified as the greatest version, not by file-name sort. `ReadSnapshot` and the read methods use this corrected order; see Findings.
- `Schema.MapFrame` uses first-match renaming, not the rename-everything map the source builds; see Findings.

## Findings

| source | as written | input that shows it | evidently intended | confidence | as-written member | corrected member |
|---|---|---|---|---|---|---|
| src/data_loader/normalization.py:161-180 | every present synonym of an absent canonical column is renamed to it, so two synonyms both become that column | a Level 1 batch with both `LegalName` and `Entity.LegalName` columns gets two `legalName` columns | one column per canonical name: the first synonym in table order wins | not executed | Schema.EntityLegalNameCollision | Schema.EntityLegalNameCorrected |
| src/data_loader/persistence.py:160-164 | "latest" is the last file name in sorted order, so `.parquet` takes part in the comparison; `list_versions` sorts the versions themselves | versions "2024-01" and "2024-01-15": '-' sorts before '.', so the file of "2024-01" sorts last while "2024-01-15" is the greatest version | "latest" is the greatest version, the last one `list_versions` reports | not executed | Persistence.LatestFileDisagreement | Persistence.LatestIsLastListed |
