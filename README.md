# Job-posting ETL: schema projection and staging names

This project models the heart of an Airflow ETL pipeline for job postings, found in `dags/etl.py`. The model covers two of its steps.

- **Extract** writes each row of the `context` column of the source CSV to a staging file named `extracted_<i>.txt`, where `<i>` is the row index.
- **Transform** visits every `.txt` entry of that directory. It cleans the entry's text into a dictionary, then projects that dictionary through a fixed two-level schema. The schema has six categories: job, company, education, experience, salary and location. Each category maps a cleaned-data key (the *source*) to an output column name. The projected record goes to `transformed_<name>.json`.

The model has four parts:

- `Naming` covers the staging file names. It contains the decimal rendering of a row index, its parser, and the name builders with their inverses.
- `Schema` holds the schema as data. It has one constant per category, in the source's order.
- `Projection` covers the nested projection loop. It has two specifications:
  - `FillRow` is a left-to-right fold for the inner loop, where a later write to the same column wins, as with a Python dict.
  - `BuildRecord` is the same fold for the outer loop.

  The method `Project` is the imperative nested loop over any schema, proved equal to `BuildRecord`. `Transform` is a single call of `Project` on the source's own schema.
- `Staging` covers the two directory loops, modelled on maps from file name to contents.

The cleaning function `clean_and_transform` is not defined anywhere in the repository. The model takes it as a parameter `clean`. A cleaned dictionary is a `map<string, Option<V>>`, and `dict.get` is `Projection.Get`: a missing key reads as `None`. The lookup uses the schema's left-hand names (`title`, `name`, `currency`, …), not the output columns. A cleaner keyed by the output names (`job_title`, …) would fill only `seniority_level` and the seven location columns, whose source and output names coincide. The other 13 of the 21 columns would be `None`.

## Model

| member | source | states |
|---|---|---|
| Naming.Decimal | dags/etl.py:79 | The decimal text of a row index is non-empty, all digits, and has no leading zero unless the index is 0. This is how Python renders `i` inside the f-string. |
| Naming.ParseDecimalInverts | dags/etl.py:79 | Parsing the decimal text of `n` gives back `n`. |
| Naming.DecimalOfParse | dags/etl.py:79 | Any canonical digit string that parses to `n` is exactly the decimal text of `n`. |
| Naming.DecimalInjective | dags/etl.py:79 | Two indices have the same decimal text if and only if they are equal. |
| Naming.ExtractedIndexInverts | dags/etl.py:79 | The index can be recovered from `extracted_<i>.txt`. |
| Naming.ExtractedIndexSound | dags/etl.py:79 | A name with a canonical index between `extracted_` and `.txt` is exactly `extracted_<i>.txt`. |
| Naming.ExtractedNameInjective | dags/etl.py:78-79 | Distinct rows get distinct staging files, and rows with equal indices get the same file (an iff). |
| Naming.ExtractedNameIsText | dags/etl.py:79-128 | Every extracted file name passes the transform step's `.endswith(".txt")` filter. |
| Naming.TransformedSourceInverts | dags/etl.py:130 | Stripping `transformed_` and `.json` recovers the input name if and only if the output name was built from it. |
| Naming.TransformedNameInjective | dags/etl.py:130 | Two input names give the same output name if and only if they are equal. |
| Naming.TransformedExtractedName | dags/etl.py:79-130 | Row `i` ends up in `transformed_extracted_<i>.txt.json`. The `.txt` is kept inside the output name. |
| Schema.ColumnList | dags/etl.py:140 | The column names of a category, in order, one per attribute. |
| Schema.ColumnsOfList | dags/etl.py:140 | The set of a category's columns is the set of elements of its column list. |
| Schema.JobDistinct | dags/etl.py:90-96 | Job's sources are pairwise distinct, and so are its columns. |
| Schema.JobColumns | dags/etl.py:90-96 | Job's columns are job_title, job_industry, job_description, job_employment_type and job_date_posted. |
| Schema.CompanyDistinct | dags/etl.py:97-100 | Company's sources are pairwise distinct, and so are its columns. |
| Schema.CompanyColumns | dags/etl.py:97-100 | Company's columns are company_name and company_linkedin_link. |
| Schema.EducationDistinct | dags/etl.py:101-103 | Education's single attribute is trivially distinct. |
| Schema.EducationColumns | dags/etl.py:101-103 | Education's only column is job_required_credential. |
| Schema.ExperienceDistinct | dags/etl.py:104-107 | Experience's sources are pairwise distinct, and so are its columns. |
| Schema.ExperienceColumns | dags/etl.py:104-107 | Experience's columns are job_months_of_experience and seniority_level. |
| Schema.SalaryDistinct | dags/etl.py:108-113 | Salary's sources are pairwise distinct, and so are its columns. |
| Schema.SalaryColumns | dags/etl.py:108-113 | Salary's columns are salary_currency, salary_min_value, salary_max_value and salary_unit. |
| Schema.LocationDistinct | dags/etl.py:114-122 | Location's sources are pairwise distinct, and so are its columns. |
| Schema.LocationColumns | dags/etl.py:114-122 | Location's columns are country, locality, region, postal_code, street_address, latitude and longitude. |
| Schema.ColumnsSnoc | dags/etl.py:140-141 | A category's columns are those of all attributes but the last, plus the last attribute's column. |
| Schema.DistinctColumnsCount | dags/etl.py:140-141 | With pairwise-distinct columns, a category has exactly as many distinct columns as attributes. |
| Schema.CategoriesWellFormed | dags/etl.py:89-123 | The six category names are distinct. Within every category, sources are distinct and so are columns. So the source's dict literal has no key that silently overwrites another. |
| Schema.CategoriesShape | dags/etl.py:89-123 | The schema has six categories named job, company, education, experience, salary and location, of sizes 5, 2, 1, 2, 4 and 7: 21 attributes in all. |
| Projection.FillRowKeys | dags/etl.py:139-141 | After the inner loop, a category's entry has exactly the category's columns as keys. |
| Projection.FillRowValue | dags/etl.py:140-141 | The value under a column is `cleaned.get(source)` for the last attribute naming that column. |
| Projection.BuildRecordKeys | dags/etl.py:137-139 | After the outer loop, the record's keys are exactly the category names. |
| Projection.BuildRecordValue | dags/etl.py:138-141 | Under a category's name (its last occurrence) the record holds that category's filled row. |
| Projection.FillRowStep | dags/etl.py:140-141 | One pass of the inner loop adds the next column to the row, bound to `cleaned.get` of its source. |
| Projection.BuildRecordStep | dags/etl.py:138-141 | One pass of the outer loop binds the next category's name to its filled row. |
| Projection.Project | dags/etl.py:137-141 | The nested loops over any schema (a fresh dict, an empty dict per category, then one assignment per attribute) compute exactly `BuildRecord(schema, cleaned)`. |
| Projection.Transform | dags/etl.py:137-141 | Running the nested loops over the source's own schema yields the projection `Projected(cleaned)`. |
| Projection.ProjectedCategories | dags/etl.py:137-139 | A transformed record always has exactly the six category keys, whatever the cleaned data holds. |
| Projection.ProjectedEntry | dags/etl.py:141 | Every schema column appears in its category. Its value is `cleaned.get(source)`: the cleaned value when the key is present, `None` when it is missing. |
| Projection.ProjectedRowKeys | dags/etl.py:139-141 | Each category entry of a transformed record has exactly that category's columns as keys. |
| Projection.ProjectedSizes | dags/etl.py:139-141 | Each category entry of a transformed record has as many keys as the category has attributes. No column is lost to a collision. |
| Projection.ProjectedColumns | dags/etl.py:89-141 | The complete key layout of a transformed record, category by category, with the output column names written out. |
| Projection.FillRowAgree | dags/etl.py:141 | Two cleaned dictionaries that agree on a category's sources fill the same row. |
| Projection.BuildRecordAgree | dags/etl.py:138-141 | Two cleaned dictionaries that agree on every source of a schema build the same record. |
| Projection.ProjectedAgree | dags/etl.py:137-141 | Cleaned dictionaries that agree on `cleaned.get` of each of the 21 schema source keys give the same transformed record. A missing key and a key bound to `None` agree. |
| Projection.ProjectedDependsOnlyOnSourceKeys | dags/etl.py:137-141 | Two cleaned dictionaries give the same transformed record if and only if they agree on `cleaned.get` of every schema source key. A missing key and a key bound to `None` agree, so the same keys need not be present. |
| Projection.ProjectedIgnoresOtherKeys | dags/etl.py:141 | Adding, changing or removing a cleaned key that no schema attribute reads leaves the record unchanged. |
| Projection.FillRowOrderIndependent | dags/etl.py:140 | With distinct columns, the order in which a category's attributes are visited does not change its row. |
| Projection.RecordOrderIndependent | dags/etl.py:138 | Any reordering of a schema with distinct names and columns builds the same record. |
| Projection.ProjectedOrderIndependent | dags/etl.py:138 | Iterating the source's schema in any order gives the same transformed record. |
| Staging.ExtractedNamesStep | dags/etl.py:78-79 | Writing row `i` adds the one name `extracted_<i>.txt`, which none of the earlier rows used. |
| Staging.ExtractedNamesCount | dags/etl.py:78-79 | `n` rows produce exactly `n` distinct staging names. |
| Staging.ExtractedNamesAreText | dags/etl.py:79-128 | Every name the extract step writes is kept by the transform step's `.txt` filter. |
| Staging.TransformedNamesCount | dags/etl.py:130 | A set of input names maps to exactly as many output names. |
| Staging.PipelineCount | dags/etl.py:78-130 | The output names of the text entries among the `n` extracted names are exactly `n` in number, and include the output name of every row's staging file. |
| Staging.WroteRowsStep | dags/etl.py:78-81 | Writing the next row keeps the extract loop's invariant: earlier rows are in place and unrelated files are untouched. |
| Staging.Extract | dags/etl.py:77-81 | After the loop, the directory holds `extracted_<i>.txt` with row `i` for every row, replacing any earlier file of that name. Every other file, compared by exact name, is unchanged. Starting empty, it holds exactly one file per row. |
| Staging.WroteRecordsSkip | dags/etl.py:128 | Visiting an entry without the `.txt` suffix changes nothing. |
| Staging.WroteRecordsStep | dags/etl.py:128-144 | Visiting a `.txt` entry stores its record under `transformed_<name>.json` and keeps every earlier output. |
| Staging.TransformStaged | dags/etl.py:127-144 | After visiting every entry, each `.txt` entry's output holds `Projected(clean(text))` of its contents. Other output files, compared by exact name, are unchanged, and no other outputs are created. |
| Staging.Pipeline | dags/etl.py:77-144 | Extracting the rows into an empty directory and transforming that into an empty directory yields exactly one output file per row, named `transformed_extracted_<i>.txt.json` for row `i`. |

## Left out

- Reading `jobs.csv` with pandas and rendering each cell with `str(item)` is not modelled. The extract step takes the `context` column's rendered rows as a sequence of strings.
- Directory creation (`os.makedirs`), path joining, opening and reading files, and `json.dump` are not modelled. Directories are maps from entry name to contents, and a transformed file holds the record value itself rather than its JSON text. The dumped JSON lists keys in the schema's insertion order, and the model's maps drop that order. So `RecordOrderIndependent` and `ProjectedOrderIndependent` prove the records equal as dictionaries (as Python's `==` compares them), not that the dumped texts are identical.
- File names are compared exactly, as on a case-sensitive file system. On a case-folding one (the default on Windows, which the hard-coded `C:/` paths point to, and on macOS), writing `extracted_0.txt` over an existing `EXTRACTED_0.TXT` rewrites that file, which keeps its upper-case name. That name then fails the case-sensitive `.txt` test, so the row gets no output. Likewise, a stale output that differs from the new name only in case is overwritten rather than kept. `Extract` and `TransformStaged` keep such entries as separate files. `Pipeline` is unaffected, since it starts from empty directories and produces only lower-case names.
- The hard-coded absolute directory paths are not modelled. Only entry names within a directory are.
- The order of `os.listdir` is not modelled. The transform loop visits the entries as a set, in an arbitrary order. Distinct inputs have distinct outputs, so in a run where nothing fails the order cannot change the result.
- `clean_and_transform` is not defined in the repository. It is a parameter, `clean`, assumed total: for every text it returns a map with string keys, and it never raises.
- Exceptions are not modelled. The model assumes that the cleaner returns normally, that every open, read and write succeeds, and that `json.dump` accepts every value. In the source, an exception in the loops at dags/etl.py:78-81 or dags/etl.py:127-144 ends the step. Only the files written before it exist then, and which files those are depends on the `os.listdir` order. A failed `json.dump` can also leave a truncated file behind.
- Newline translation is not modelled. The extract step writes in text mode and the transform step reads back with universal newlines. On POSIX, the text passed to the cleaner has `\r\n` and `\r` turned into `\n`. On Windows, the write also turns each `\n` into `\r\n`, so an original `\r\n` is stored as `\r\r\n` and comes back as `\n\n`. In the model, `TransformStaged` passes the stored string unchanged. For that reason `Pipeline` states only the output names and their number, not what the output files hold.
- The `transform` task uses `os` and `json` without importing them (only `extract` imports `os`, locally). As written, Python would raise `NameError` at run time. The model describes the evidently intended behaviour.
- The `load` task, the table-creation SQL and the SQLite hook are not modelled. They are outside the projection and staging logic.
- The Airflow DAG declaration, its schedule and task ordering, and its retries are not modelled. They are orchestration, not data transformation.
- Projection.Transform: the contract states only that the result equals `Projected(cleaned)`. Its key layout, values and sizes are stated as separate lemmas about `Projected` (ProjectedEntry, ProjectedColumns, ProjectedSizes), not as further `ensures` of the method.
