# Quiz worksheets, Word export, course copy and essay word counts — a Dafny model

This project models the small, self-contained rules inside four pieces of a
Moodle installation:

- **Quiz solution and handout reports** (`mod/quiz/report/solution`,
  `mod/quiz/report/handout`). These build printable worksheets from a quiz.
  The model covers:
  - question numbering over the quiz slots;
  - deduplication of calculated-question dataset items;
  - the widths and padding of the blank input fields;
  - the option lines of multichoice and true/false questions;
  - grouping of cloze drop-downs that offer the same options under one shared annotation number;
  - the choice of placeholder pattern (`{#n}` or `[[n]]`) and its substitution;
  - the "not displayable" notice for question types the worksheet cannot show.
- **Word export text processing** (`mod/quiz/report/handout/locallib.php`).
  The model covers:
  - escaping `--` before the XHTML clean-up and un-escaping it afterwards;
  - stripping soft hyphens, redundant `xmlns` attributes and the XML declaration;
  - the heading-offset rule;
  - embedding of image files as Base64 `<img>` tags.
- **Course copy** (`course/copy.php`, `course/copy_form.php`,
  `course/amd/src/copycourse.js`). The model covers:
  - the return-URL decision table and the form's button set;
  - the actions a submitted copy performs: duplicate, overwrite only the submitted fields, copy the enrolments of the kept roles, enrol the creator, and redirect;
  - the duplicate-shortname and duplicate-idnumber checks over a course table;
  - the dialog's positive-integer test on the number of sections.
- **Essay word count** (`question/type/essay`). The model covers:
  - the under/over-limit classification and the layout of the count display;
  - the AJAX endpoint that counts the words and characters of every POST field whose name matches `/q.*_answer/`.

Host services are parameters of the model: database rows, `get_string`,
`count_words`/`count_letters`, URL decoding, JSON string encoding, the DOM
round trip, capability and sesskey answers, and `shuffle`. PHP's byte length
`strlen` is the UTF-8 length of the string. `str_replace`, and a
`preg_replace` whose pattern denotes a literal, are a left-to-right,
non-overlapping replacement of every occurrence. `strpos` is the first index
of a substring or nothing. PHP arrays with string keys are sequences of
key/value pairs in insertion order.

Modules, one per file:

| file | module | what it holds |
|---|---|---|
| basics.dfy | `Basics` | `Option` |
| filtering.dfy | `Filtering` | order-preserving filters: kept elements at increasing positions |
| strings.dfy | `Strings` | occurrence, replace-all, first index, repetition, UTF-8 length, and their lemmas |
| decimal.dfy | `Decimal` | decimal rendering of integers and its inverse |
| phparray.dfy | `PhpArrays` | ordered key/value arrays |
| numbering.dfy | `QuestionNumbering` | slot numbering of both reports |
| dataset.dfy | `DatasetItems` | `get_database_dataset_items` |
| blanks.dfy | `Blanks` | blank sizes, padding and the numerical question |
| optionlines.dfy | `OptionLines` | multichoice and true/false option lines |
| cloze.dfy | `ClozeAnnotations` | grouping of identical drop-downs and the sort-out routine |
| placeholders.dfy | `Placeholders` | placeholder patterns, substitution, `getquestiontext` |
| wordexport.dfy | `WordExport` | the Word export pre- and post-processing |
| coursecopy.dfy | `CourseCopy` | `course/copy.php` and `course_copy_form` |
| copydialog.dfy | `CopyDialog` | the copy dialog's lookup of its input and its input test (`parseInt` per ECMA-262) |
| essay.dfy | `EssayWordcount` | `qtype_essay_format_wordcount` and `wc.ajax.php` |

## Model

| member | source | states |
|---|---|---|
| QuestionNumbering.Selected | mod/quiz/report/solution/report.php:138-153 | the selection holds exactly the slots whose question length is above -1, all with non-negative length |
| QuestionNumbering.SelectedInOrder | mod/quiz/report/solution/report.php:138-153 | the selected slots are every slot with length above -1, each taken once, at strictly increasing slot positions, so in slot order |
| QuestionNumbering.SelectedKeepsSlotOrder | mod/quiz/report/solution/report.php:138-153 | rows that arrive in the query's slot order are numbered in slot order |
| QuestionNumbering.NumberFrom | mod/quiz/report/solution/report.php:155-159 | one numbered slot per row, in order; the first gets the start number and each next one adds the previous slot's length |
| QuestionNumbering.SolutionSlots | mod/quiz/report/solution/report.php:138-162 | the solution report numbers the selected slots from 1, each one adding the previous slot's length |
| QuestionNumbering.HandoutQuestions | mod/quiz/report/handout/report.php:77-101 | the handout report's loop gives one output per selected row, in order, adds only the number, and agrees with the solution report |
| QuestionNumbering.LengthSumStep | mod/quiz/report/solution/report.php:158 | the running total grows by exactly one slot's length per step |
| QuestionNumbering.NumberFromClosedForm | mod/quiz/report/handout/report.php:94-98 | the number of slot k is the start plus the sum of the lengths before it |
| QuestionNumbering.SolutionNumberIsPrefixSum | mod/quiz/report/solution/report.php:155-159 | every solution-report number is 1 plus the lengths of the selected slots before it |
| QuestionNumbering.NumbersNonDecreasing | mod/quiz/report/handout/report.php:90-98 | since only non-negative lengths are selected, numbers never decrease in slot order |
| QuestionNumbering.ZeroLengthDoesNotAdvance | mod/quiz/report/solution/report.php:157-158 | a zero-length item (a description) leaves the next number unchanged |
| DatasetItems.ForDefinition | mod/quiz/report/solution/report.php:1835-1837 | the `WHERE` clause keeps exactly the rows of the given definition |
| DatasetItems.ForDefinitionInOrder | mod/quiz/report/solution/report.php:1835-1837 | the kept rows are every row of the definition, each once, at strictly increasing table positions |
| DatasetItems.InsertById | mod/quiz/report/solution/report.php:1837 | placing a row into an id-descending sequence keeps it id-descending and adds exactly that row |
| DatasetItems.SortByIdDescending | mod/quiz/report/solution/report.php:1837 | `order by id DESC`: a permutation of the rows in which ids never increase |
| DatasetItems.QueryRows | mod/quiz/report/solution/report.php:1833-1837 | the query returns a permutation of the definition's rows in id-descending order |
| DatasetItems.InsertIfAbsent | mod/quiz/report/solution/report.php:1840-1842 | a record is added only when its item number is not yet present, and the result stays sorted by item number |
| DatasetItems.InsertItemNumbers | mod/quiz/report/solution/report.php:1840-1844 | after an insertion the item numbers are the old ones plus the record's |
| DatasetItems.KeepFirstPerItem | mod/quiz/report/solution/report.php:1839-1844 | strictly ascending item numbers, the same item numbers as the rows, and each kept record is the first row with its number |
| DatasetItems.DatasetItemsOf | mod/quiz/report/solution/report.php:1831-1846 | the result holds rows of the definition only, sorted by item number, covering every item number of the definition, and each kept row has the greatest id among the definition's rows with its item number |
| DatasetItems.NewestRecordWins | mod/quiz/report/solution/report.php:1837-1842 | with rows in id-descending order, the kept record has the greatest id for its item number |
| DatasetItems.EachItemNumberOnce | mod/quiz/report/solution/report.php:1839-1844 | every item number of the rows appears exactly once in the result |
| DatasetItems.SortedCons | mod/quiz/report/solution/report.php:1844 | placing a record below all others keeps the key order strict |
| Blanks.LongestAnswer | mod/quiz/report/solution/report.php:1273-1285 | the largest UTF-8 length among the answers, attained by one of them, and 0 without answers |
| Blanks.ClampSize | mod/quiz/report/solution/report.php:538-544 | a size raised to at least 3 and capped at 50 |
| Blanks.NumericalClozeSize | mod/quiz/report/solution/report.php:484-493 | a numerical cloze blank is as wide as its answer, at least 3 and at most 50 |
| Blanks.ClampAbsorbs | mod/quiz/report/solution/report.php:535-544 | clamping inside the running maximum gives the same size as clamping once at the end |
| Blanks.ShortanswerClozeSize | mod/quiz/report/solution/report.php:535-544 | the shortanswer size is the running maximum of the answer lengths, raised to 3 and capped at 50 |
| Blanks.MultichoiceClozeSize | mod/quiz/report/solution/report.php:589-594 | the drop-down size is the longest option, raised to 3, with no cap |
| Blanks.DrawnMultichoiceClozeSize | mod/quiz/report/solution/report.php:850-879 | a drawn cloze drop-down is as wide as its longest option, capped at 50 and not raised to 3 |
| Blanks.DrawnShortanswerClozeSize | mod/quiz/report/solution/report.php:802-815 | a drawn cloze short-answer blank is as wide as its longest answer, at least 3 and at most 50 |
| Blanks.ShortanswerSizesAgree | mod/quiz/report/solution/report.php:535-544 | for any non-empty answers the stored rule (correcting after every answer) and the drawn rule (lines 802-815, correcting once) give the same width |
| Blanks.SingleSolutionSize | mod/quiz/report/solution/report.php:605-612 | with one correct answer the blank is as wide as that answer, capped at 50 |
| Blanks.NumericalQuestionSize | mod/quiz/report/solution/report.php:1267-1286 | the numerical question's size is at least 3 and the length of the longest answer when that is larger |
| Blanks.Padding | mod/quiz/report/solution/report.php:1289-1292 | the blank's value is `size` blocks, each exactly `&#160;&#160;`, and holds no quote |
| Blanks.BlankValueRoundTrip | mod/quiz/report/solution/report.php:500-503 | the value attribute read back from a rendered blank is the value written |
| Blanks.ReadSizeRoundTrip | mod/quiz/report/solution/report.php:502 | the size attribute read back is the size written |
| Blanks.BlankSizeRoundTrip | mod/quiz/report/solution/report.php:500-503 | reading the size from a whole rendered blank gives the size written |
| Blanks.NoQuoteInDigits | mod/quiz/report/solution/report.php:502 | a rendered size cannot close the attribute early |
| Blanks.PaddedBlank | mod/quiz/report/solution/report.php:519-527 | a padded blank reads back as the padding for its size and as that size |
| Blanks.NumericalQuestion | mod/quiz/report/solution/report.php:1267-1299 | no answers leave the text unchanged; otherwise the text is wrapped in a paragraph and followed by one blank of the longest answer's width (at least 3), padded with that many `&#160;&#160;` |
| OptionLines.StripOuterP | mod/quiz/report/solution/report.php:1226 | removing an outer `<p>…</p>` never lengthens an answer and leaves at most one final newline |
| OptionLines.StripWrapped | mod/quiz/report/solution/report.php:1226 | a single-line answer wrapped in `<p>` and `</p>` (any case, optional final newline) loses exactly the wrapper |
| OptionLines.StripOnlyWrapped | mod/quiz/report/solution/report.php:1226 | an answer that changes was wrapped, and the result is its inside |
| OptionLines.StripEach | mod/quiz/report/solution/report.php:1223-1228 | one stripped option per stored answer, in answer order |
| OptionLines.LinesRoundTrip | mod/quiz/report/solution/report.php:1241-1249 | the emitted lines parse back into exactly the options, one line each |
| OptionLines.MultichoiceText | mod/quiz/report/solution/report.php:1237-1249 | the question text comes first; unless `shuffleanswers` is 1 it is followed by one checkbox line per stripped answer, in answer order (the shuffled case is stated by OptionLines.MultichoiceShuffledLines) |
| OptionLines.MultichoiceOneLinePerAnswer | mod/quiz/report/solution/report.php:1241-1249 | without shuffling, the lines after the text are exactly one checkbox line per answer, in order |
| OptionLines.MultichoiceShuffledLines | mod/quiz/report/solution/report.php:1237-1249 | with `shuffleanswers` 1 and a shuffle that only reorders, the lines after the text parse back into a permutation of the stripped answers, one line each |
| OptionLines.TrueFalseText | mod/quiz/report/solution/report.php:1317-1337 | stored questions list their stripped answers and loaded questions list "false" then "true", each as a radio line |
| OptionLines.TrueFalseTwoLines | mod/quiz/report/solution/report.php:1323-1337 | a loaded true/false question prints exactly two radio lines, false before true |
| ClozeAnnotations.OptionLists | mod/quiz/report/solution/report.php:665-671 | the option list of each drop-down, in field order |
| ClozeAnnotations.OptionListsSnoc | mod/quiz/report/solution/report.php:665-671 | appending a field appends its option list |
| ClozeAnnotations.FirstPos | mod/quiz/report/solution/report.php:665-671 | the position at which an option list first appears |
| ClozeAnnotations.AddField | mod/quiz/report/solution/report.php:897-903 | a field joins an existing group, or a new group is added at the end |
| ClozeAnnotations.AddFieldGet | mod/quiz/report/solution/report.php:897-903 | the group of the field's options gains the field and every other group is unchanged |
| ClozeAnnotations.AddFieldDistinct | mod/quiz/report/solution/report.php:897-903 | adding a field never creates a second group with the same options |
| ClozeAnnotations.GroupingDistinct | mod/quiz/report/solution/report.php:665-671 | each option list has one group |
| ClozeAnnotations.GroupingKeySet | mod/quiz/report/solution/report.php:665-671 | the groups are exactly the option lists that occur |
| ClozeAnnotations.GroupingOrder | mod/quiz/report/solution/report.php:665-671 | groups appear in the order their option lists first appear |
| ClozeAnnotations.GroupingMembers | mod/quiz/report/solution/report.php:897-903 | a group holds exactly the fields with its option list, and a list that never occurs has no group |
| ClozeAnnotations.FieldsWithSound | mod/quiz/report/solution/report.php:897-903 | every field in a group offers the group's options |
| ClozeAnnotations.FieldsWithComplete | mod/quiz/report/solution/report.php:897-903 | every field is in the group of its options |
| ClozeAnnotations.FieldsWithAbsent | mod/quiz/report/solution/report.php:897-903 | an option list that no field offers has no members |
| ClozeAnnotations.FieldKeyInjective | mod/quiz/report/solution/report.php:918 | different fields have different replacement keys `#i` |
| ClozeAnnotations.MarkFieldsHit | mod/quiz/report/solution/report.php:917-920 | each field of a group is mapped to its field text followed by the group's counter mark |
| ClozeAnnotations.MarkFieldsMiss | mod/quiz/report/solution/report.php:917-920 | marking a group changes no other key |
| ClozeAnnotations.SortOutHit | mod/quiz/report/solution/report.php:913-927 | the g-th group's fields get counter start+g |
| ClozeAnnotations.SortOutMiss | mod/quiz/report/solution/report.php:913-927 | keys of fields outside every group keep their value |
| ClozeAnnotations.FieldInOneGroup | mod/quiz/report/solution/report.php:897-903 | a field belongs only to the group of its own options |
| ClozeAnnotations.ClozeFieldAnnotation | mod/quiz/report/solution/report.php:913-927 | every cloze drop-down is mapped to its field text plus the counter g+1 of its group, counters counting groups 1, 2, … in first-appearance order |
| ClozeAnnotations.NumberedSplit | mod/quiz/report/solution/report.php:916-927 | in lines written one per item with a counter that goes up by one per item, item g's line carries start+g and sits between the lines before and after it |
| ClozeAnnotations.AnnotationSplit | mod/quiz/report/solution/report.php:913-927 | the annotation holds, for the g-th group, the line `<sup>*n</sup>&#160;options: …<br />` with n = start+g and the group's options exploded at the option separator, shuffled and imploded, after the earlier groups' lines and before the later ones |
| ClozeAnnotations.AnnotationLineOfField | mod/quiz/report/solution/report.php:913-927 | a drop-down whose field is marked `*g+1` finds on annotation line g+1 its own options, exploded at the option separator and imploded in an order that is a permutation of them |
| ClozeAnnotations.UnshuffledLineOfField | mod/quiz/report/solution/report.php:921-925 | when the shuffle keeps the order, line g+1 lists exactly the drop-down's option text |
| Placeholders.QuestionText | mod/quiz/report/solution/report.php:407-413 | the notice paragraph for the non-printable types and the question text for every other or missing type |
| Placeholders.NoticeExactlyForNonPrintable | mod/quiz/report/solution/report.php:41 | for coderunner, ddimageortext, ddmarker, pmatch and regexp the text is replaced |
| Placeholders.UnescapePlain | mod/quiz/report/solution/report.php:1888-1890 | a key without regex metacharacters passes through the pattern unchanged |
| Placeholders.CurlyPatternMatches | mod/quiz/report/solution/report.php:1888-1890 | the pattern `/\{v}/` matches the literal text `{v}` |
| Placeholders.SquarePatternMatches | mod/quiz/report/solution/report.php:1901-1903 | the pattern `/\[\[v]]/` matches the literal text `[[v]]` |
| Placeholders.PatternForMatches | mod/quiz/report/solution/report.php:385-397 | gap-select and drag-into-text questions (stored or drawn) use `[[v]]` and every other kind uses `{v}` |
| Placeholders.FormattedText | mod/quiz/report/solution/report.php:385-397 | the annotation is appended before substitution; a text with none of the placeholders comes out unchanged; with one key every occurrence of its placeholder in text plus annotation is replaced by the value |
| Placeholders.NoPlaceholderNoChange | mod/quiz/report/solution/report.php:387-396 | substituting keys whose placeholders do not occur changes nothing |
| Placeholders.OneReplacement | mod/quiz/report/solution/report.php:387-396 | substituting one key replaces every occurrence of its placeholder text by the value |
| Placeholders.SingleKey | mod/quiz/report/solution/report.php:387-396 | with a single key, the pattern substitution replaces every occurrence of that key's placeholder by its value |
| Placeholders.AnnotationPlaceholderReplaced | mod/quiz/report/solution/report.php:391-396 | a placeholder that only the annotation holds is still substituted, because the annotation is appended first |
| WordExport.MarkerFirstCharUnique | mod/quiz/report/handout/locallib.php:196 | the marker's first letter does not recur in it, so occurrences cannot overlap |
| WordExport.EscapeRoundTrip | mod/quiz/report/handout/locallib.php:196 | un-escaping the escaped text gives back any text that did not hold the marker |
| WordExport.EscapedHasNoDoubleMinus | mod/quiz/report/handout/locallib.php:196 | no `--` survives escaping |
| WordExport.StripSoftHyphens | mod/quiz/report/handout/locallib.php:230 | no soft hyphen remains and every other character is kept |
| WordExport.StripWithoutSoftHyphen | mod/quiz/report/handout/locallib.php:230 | a text without soft hyphens is unchanged |
| WordExport.FixPluginfileIdentity | mod/quiz/report/handout/locallib.php:213-227 | with an identity decoder the plug-in-file fix-up changes nothing |
| WordExport.FixPluginfileAbsent | mod/quiz/report/handout/locallib.php:214-217 | a text without a plug-in-file image is unchanged |
| WordExport.CleanHtmlText | mod/quiz/report/handout/locallib.php:194-232 | the cleaned text contains no soft hyphen |
| WordExport.CleanThenUnescape | mod/quiz/report/handout/locallib.php:196 | apart from the DOM step, cleaning then un-escaping gives back a text with no marker, soft hyphen or plug-in-file image |
| WordExport.EscapeKeepsSoftHyphenFree | mod/quiz/report/handout/locallib.php:196 | escaping creates no soft hyphen |
| WordExport.HeadingOffsetAsWritten | mod/quiz/report/handout/locallib.php:83-86 | the offset is '1' exactly when the lucimoo div occurs at a position other than 0, otherwise '3' |
| WordExport.HeadingOffset | mod/quiz/report/handout/locallib.php:82-86 | the offset is '1' exactly when the lucimoo div occurs, otherwise '3' |
| WordExport.HeadingOffsetAtStart | mod/quiz/report/handout/locallib.php:84 | a text that starts with the lucimoo div gets offset '3' from the code as written |
| WordExport.HeadingOffsetAgrees | mod/quiz/report/handout/locallib.php:84 | the two offset rules differ only for texts starting with the div |
| WordExport.StripOnceShortens | mod/quiz/report/handout/locallib.php:124-125 | one stripping pass never lengthens the text and shortens it when an attribute occurs |
| WordExport.StripOnceCanLeaveNamespace | mod/quiz/report/handout/locallib.php:124-125 | the single pass turns ` xmlns= xmlns=""""` into ` xmlns=""`: removing one attribute can join the text around it into another |
| WordExport.StripOnceWithoutAttributes | mod/quiz/report/handout/locallib.php:124-125 | a text holding neither attribute passes the strip unchanged |
| WordExport.StripXmlDeclaration | mod/quiz/report/handout/locallib.php:129-134 | with a case-insensitive `<?xml` start and a newline, everything before the first newline is dropped; otherwise the text is unchanged |
| WordExport.DeclarationStripKeepsAbsent | mod/quiz/report/handout/locallib.php:130-134 | dropping the declaration creates no new substring |
| WordExport.ExportOutput | mod/quiz/report/handout/locallib.php:123-136 | the export strips each attribute in one pass, then un-escapes and drops the declaration; whenever that pass leaves no namespace attribute, none reaches the result |
| WordExport.ExportOutputKeepsPlain | mod/quiz/report/handout/locallib.php:123-136 | a text with no namespace attribute, no marker and no declaration is exported unchanged |
| WordExport.ExportCanLeaveNamespace | mod/quiz/report/handout/locallib.php:123-136 | the exported ` xmlns= xmlns=""""` is ` xmlns=""`: the attribute the single pass joins reaches the result |
| WordExport.Extension | mod/quiz/report/handout/locallib.php:162 | the extension is the dot-free end of the name |
| WordExport.ExtensionOf | mod/quiz/report/handout/locallib.php:162 | the extension of `base.ext` is `ext` |
| WordExport.EmbeddableFiles | mod/quiz/report/handout/locallib.php:159-176 | exactly the found files whose lower-cased extension is png, jpg, jpeg or gif |
| WordExport.ImageTagsOfEmbeddable | mod/quiz/report/handout/locallib.php:159-176 | the image tags are those of the embeddable files, in order |
| WordExport.ImageTagsEmpty | mod/quiz/report/handout/locallib.php:163-175 | no tags are written exactly when no file is embeddable |
| WordExport.ImageType | mod/quiz/report/handout/locallib.php:164 | the MIME subtype is `jpeg` exactly for the extensions `jpg` and `jpeg`, one of `png`, `jpeg`, `gif` for every image extension, and the extension itself otherwise |
| WordExport.EmbeddedImageType | mod/quiz/report/handout/locallib.php:162-172 | every embedded file, whatever the case of its name, is tagged as `image/png`, `image/jpeg` or `image/gif`, and as `image/jpeg` exactly when its lower-cased extension is `jpg` or `jpeg` |
| WordExport.Base64Images | mod/quiz/report/handout/locallib.php:149-183 | empty when nothing is embeddable, otherwise the tags wrapped in `<div class="ImageFile">` |
| WordExport.JpgIsJpeg | mod/quiz/report/handout/locallib.php:162-165 | an upper-case `.JPG` file is embedded, when found, as `image/jpeg` |
| CourseCopy.ReturnUrl | course/copy.php:36-65 | the given URL is used exactly when `returnto` is `url`, the sesskey is confirmed and the URL is non-empty |
| CourseCopy.ReturnUrlTable | course/copy.php:41-64 | the default is the course page when the id is non-zero, else `/course/`; category, catmanage, topcatmanage, topcat and pending go to their fixed pages, and only category and catmanage pass the category id |
| CourseCopy.Buttons | course/copy_form.php:130-136 | "copy and return" exactly when `returnto` was given; "copy and display" and "cancel" always, last |
| CourseCopy.Overwrite | course/copy.php:123-135 | start date, end date and idnumber are replaced exactly when submitted; every other field is kept |
| CourseCopy.OverwriteIdempotent | course/copy.php:123-136 | writing the same submission twice changes nothing further |
| CourseCopy.EnrolmentCopies | course/copy.php:138-142 | one enrolment copy per kept role, in order |
| CourseCopy.CourseUrl | course/copy.php:150-166 | the enrolment page exactly when the user is not enrolled, "copy and display" was pressed and some instance offers a manual-enrol link; otherwise the new course's page |
| CourseCopy.SubmitActions | course/copy.php:109-174 | duplicate with the single option users = 0 first, then the overwritten record, and one redirect, last |
| CourseCopy.SubmitCopiesEachRole | course/copy.php:138-142 | enrolments are copied exactly once per kept role, right after the update |
| CourseCopy.SubmitRedirect | course/copy.php:168-174 | the redirect goes to the course URL exactly when "copy and display" was pressed, else to the return URL |
| CourseCopy.SubmitEnrolsCreator | course/copy.php:144-148 | the creator is enrolled internally, once and right before the redirect, exactly when a creator role is set and the user can neither view nor is enrolled with the right to assign roles |
| CourseCopy.PageActions | course/copy.php:106-175 | a cancelled form only redirects to the return URL, a duplicate happens exactly for a submission, and a shown form asks nothing |
| CourseCopy.FirstCourse | course/copy_form.php:160 | the first course with the value, or none exactly when no course has it |
| CourseCopy.Validation | course/copy_form.php:159-173 | a shortname error exactly when the first course with the shortname is not the one named by the form's id; an idnumber error exactly when the idnumber is non-empty, changed from the source's (or no id), and held by another course |
| CourseCopy.ShortnameErrorExactly | course/copy_form.php:160-164 | with unique shortnames, a shortname error exactly when another course has the shortname |
| CourseCopy.EmptyIdnumberNotChecked | course/copy_form.php:167 | an empty idnumber is never checked |
| CourseCopy.SourceNamesAccepted | course/copy_form.php:161-169 | a copy under the source course's own shortname and idnumber passes both checks |
| CourseCopy.CopyValidation | course/copy_form.php:159-173 | corrected checks: a shortname error exactly when any course has it; an idnumber error exactly when it is non-empty and any course has it |
| CourseCopy.SourceNamesRefused | course/copy_form.php:160-164 | the corrected checks refuse the source's shortname |
| CopyDialog.TrimStart | course/amd/src/copycourse.js:64 | `parseInt` drops exactly the leading ECMAScript white space |
| CopyDialog.DigitPrefix | course/amd/src/copycourse.js:64 | `parseInt` reads the longest run of digits of the radix |
| CopyDialog.RadixTenIsDecimal | course/amd/src/copycourse.js:64 | decimal digit runs have their decimal value |
| CopyDialog.ParseIntOfRendering | course/amd/src/copycourse.js:64 | `parseInt` reads back the rendering of every natural number |
| CopyDialog.AcceptsExactlyPositiveDecimals | course/amd/src/copycourse.js:64 | the value is accepted exactly when it is a canonical decimal numeral of a positive integer |
| CopyDialog.RefusedUnlessPlainDigits | course/amd/src/copycourse.js:64 | the empty text, `0`, leading zeros, signs, white space, hexadecimal and trailing text are refused |
| CopyDialog.ParseIntReadsHexadecimal | course/amd/src/copycourse.js:64 | `parseInt("0x1Az")` is 26, so a hexadecimal value fails the round trip |
| CopyDialog.ParseIntSkipsSpaceAndSign | course/amd/src/copycourse.js:64 | `parseInt(" -7")` is -7 |
| CopyDialog.CopyTarget | course/amd/src/copycourse.js:61-66 | on a value read, the browser moves exactly when the value is accepted, to the link followed by `&numsections=` and the value as typed |
| CopyDialog.FindById | course/amd/src/copycourse.js:60 | `find("#x")` returns exactly the body's elements whose id is x |
| CopyDialog.UndefinedReadsNaN | course/amd/src/copycourse.js:64 | `parseInt(undefined)` is NaN, whose text `NaN` is not the value read |
| CopyDialog.DialogTarget | course/amd/src/copycourse.js:60-66 | the browser moves exactly when the selector finds an element whose value is accepted, to the link with that value appended |
| CopyDialog.CopyTargetAsWritten | course/amd/src/copycourse.js:49-66 | as written the lookup finds nothing, so the browser never moves, whatever was typed |
| CopyDialog.CopyTargetCorrected | course/amd/src/copycourse.js:49-66 | reading the dialog's own input, the browser moves exactly when the typed value is accepted, to the link with the value appended as typed |
| CopyDialog.AsWrittenIgnoresAcceptedValue | course/amd/src/copycourse.js:49-66 | typing `3` moves the corrected dialog to `…&numsections=3` while the dialog as written stays put |
| EssayWordcount.Classify | question/type/essay/locallib.php:10 | under the limit exactly when the count is at most the limit, so equal counts are under |
| EssayWordcount.SpanHead | question/type/essay/locallib.php:10-11 | a span starts with the under-limit class and a check mark exactly when its count is within its limit |
| EssayWordcount.FormatWordcount | question/type/essay/locallib.php:5-8 | the output starts with the `wordcount` div whose id is the given id followed by `_wordcount` |
| EssayWordcount.CharsSpanFirst | question/type/essay/locallib.php:9-14 | the character span comes right after the div head and is under-limit exactly when the characters are within their limit |
| EssayWordcount.WordsSpanSecond | question/type/essay/locallib.php:15-21 | the word span follows after `, ` and is under-limit exactly when the words are within their limit |
| EssayWordcount.StartsDiffer | question/type/essay/locallib.php:10-11 | the over-limit start never reads as the under-limit start |
| EssayWordcount.QBeforeStep | question/type/essay/wc.ajax.php:10 | the unanchored match state advances one character at a time |
| EssayWordcount.MatchesAnswerKey | question/type/essay/wc.ajax.php:10 | a key matches exactly when it holds a `q` followed later on the same line by `_answer` |
| EssayWordcount.AnswerCountsComplete | question/type/essay/wc.ajax.php:9-13 | every matching POST field is reported with its own word and character counts |
| EssayWordcount.AnswerCountsSound | question/type/essay/wc.ajax.php:9-13 | every reported entry is a matching POST field with its own counts |
| EssayWordcount.AnswerCountsInOrder | question/type/essay/wc.ajax.php:9-13 | the reported keys are POST keys at strictly increasing positions |
| EssayWordcount.AnswerCountsDistinct | question/type/essay/wc.ajax.php:9-13 | distinct POST keys give distinct result keys |
| EssayWordcount.WordCounts | question/type/essay/wc.ajax.php:8-13 | the loop's result is the matching fields with their counts, and empty for an empty POST |
| EssayWordcount.JsonResult | question/type/essay/wc.ajax.php:14 | `[]` exactly for an empty result, otherwise a JSON object |
| EssayWordcount.Reply | question/type/essay/wc.ajax.php:8-14 | the reply is the JSON of the counts, and `[]` exactly when no POST key matches |
| Decimal.ValueOfNatToString | question/type/essay/locallib.php:12-13 | the decimal rendering of a count denotes that count |
| Decimal.NatToStringOfValue | course/amd/src/copycourse.js:64 | a canonical numeral is the rendering of its value |
| Decimal.NatToStringInjective | question/type/essay/locallib.php:12-13 | different counts render differently |
| Strings.ReplaceRoundTrip | mod/quiz/report/handout/locallib.php:127 | replacing a pattern by a marker and back restores a text that held no marker |
| Strings.ReplaceCreatesNoOccurrence | mod/quiz/report/handout/locallib.php:124-127 | a replacement whose pieces share no characters with a pattern creates no occurrence of it |
| Strings.ImplodeExplode | mod/quiz/report/solution/report.php:922-925 | `implode` with the separator gives back the text that `explode` split |

## Left out

- The XSLT transformation, the DOMDocument load and save, temporary files and the debug writes are I/O and foreign libraries. The DOM round trip of `booktool_wordimport_clean_html_text` is a parameter (`bodyOf`).
- File storage, file contents and `base64_encode` are host services. Each file comes with a found flag and its encoded data.
- `shuffle` and `rand` are parameters. Where the order is shuffled the model claims no order, only contents: the shuffled multichoice lines and the cloze annotation lemmas require the shuffle to return a permutation of the list it is given (`Strings.IsShuffle`).
- Calculated questions: the model covers the dataset item selection. Formula evaluation, `number_format` of marks and percentages built from `fraction` are left out, because they are foreign and floating point.
- The gap-select, drag-into-text, matching, kprime and mtf processors are left out, and so is gap-select gap attribution, which casts an array to an integer. For these the model covers only the placeholder pattern they select.
- The multichoice clean-up of drawn questions, `/<p[^>]*>(.*)<\/p[^>]*>/` (mod/quiz/report/solution/report.php:1233), is left out. Only the stored-question form `!^<p>(.*?)</p>$!i` is modelled.
- The drawn cloze branch of `processclozequestion` (mod/quiz/report/solution/report.php:732-907) is modelled only through its widths: Blanks.DrawnMultichoiceClozeSize, Blanks.DrawnShortanswerClozeSize, and Blanks.NumericalClozeSize for the numerical sub-question (lines 751-759). The blank texts it writes are left out: they carry `value=""` or no value instead of the `&#160;&#160;` padding of stored questions (lines 761-768, 842-843, 891-895), and write `value` after `style` rather than before `size`. Its annotation bookkeeping (lines 897-904) is the stored branch's, which ClozeAnnotations models.
- Answer-format filtering of cloze sub-questions is left out. The sizes are modelled for the answers that reach the size rules.
- Placeholders.OneReplacement: keys are required to hold no regex metacharacters, since keys are field numbers. Replacement values are inserted literally, so `$n` and `\n` back-references are not modelled.
- Solution-mode cloze keys (`#$i` and `$i`) are left out. The sort-out routine is modelled over the keys it writes.
- PHP loose comparison between numeric strings (the idnumber `!=`, the `switch` on `returnto`) is modelled as string equality.
- `course_validate_dates`, the enrolment-plugin validation and the parent form validation are host checks and are left out.
- `require_login`, capabilities, `confirm_sesskey` and `require_sesskey` enter the model as booleans, or are left out.
- Database reads and writes are recorded as actions or passed as rows.
- `html_writer` attribute escaping of the essay id is left out.
- `json_encode` string escaping is a parameter (`encodeString`).
- `count_words`, `count_letters` and `get_string` are host services. The box takes the two counts and the captions as parameters. The AJAX endpoint takes the two counting functions as parameters.
- The copy dialog's DOM is modelled as the list of elements in its body with their ids and typed values. Attribute selectors other than `#id` are left out.
- `parseInt` precision above 2^53 and exponent notation of huge numbers are left out. Numbers are unbounded integers.
- The `jQuery` modal and event wiring of the copy dialog are UI and are left out.
- WordExport.FixPluginfileNames: URL decoding is a parameter. Its contract states only the cases where the decoder is the identity or no plug-in-file image occurs.
- WordExport.CleanHtmlText: its contract states that no soft hyphen remains. The escape round trip is stated by CleanThenUnescape with the DOM step taken as the identity.
- EssayWordcount.FormatWordcount: its contract states only the div head. The spans are stated by CharsSpanFirst and WordsSpanSecond.
- WordExport.ExportOutput: the one-pass strip can join an attribute from the text around a removed one (WordExport.ExportCanLeaveNamespace). So the contract promises no namespace attribute in the result only when the pass leaves none.
- DatasetItems.QueryRows: rows with equal ids may come in any order. Ids are the table's primary key, so the query never returns two.
- The `qtype_truefalse_question` branch of `processtruefalsequestion` is modelled (`OptionLines.TrueFalseText`), but the report does not reach it: drawn true/false questions go to the multichoice routine (mod/quiz/report/solution/report.php:312-313).
- QuestionNumbering.ZeroLengthDoesNotAdvance, CourseCopy.ReturnUrlTable, CourseCopy.OverwriteIdempotent, CourseCopy.SubmitCopiesEachRole and CourseCopy.SubmitRedirect follow directly from the contracts of the functions they are about.

## Findings

| source | as written | input that shows it | evidently intended | confidence | as-written member | corrected member |
|---|---|---|---|---|---|---|
| mod/quiz/report/handout/locallib.php:84 | `if (strpos($cleancontent, '<div class="lucimoo">'))` reads position 0 as false | a cleaned text that starts with `<div class="lucimoo">` gets heading offset '3' | offset '1' whenever the div occurs (`!== false`) | medium, not executed | WordExport.HeadingOffsetAsWritten (shown by WordExport.HeadingOffsetAtStart) | WordExport.HeadingOffset |
| course/copy_form.php:161-169 | the clash is excused when the clashing course's id equals the hidden `id`, which is the source course | copying course 7 (shortname `A`) under shortname `A` passes validation | a copy is a new course, so any existing course with the shortname or idnumber clashes | medium, not executed | CourseCopy.Validation (shown by CourseCopy.SourceNamesAccepted) | CourseCopy.CopyValidation |
| course/amd/src/copycourse.js:60 | the value is read from `find('#add_section_numsections')`, but the body's input has the id `copyfullnamecourse` (lines 49-50); only the label's `for` names `add_section_numsections` | typing `3` and pressing Copy: `.val()` is `undefined`, `'' + parseInt(undefined)` is `NaN`, and the browser stays on the page | read the value from `#copyfullnamecourse` | high, not executed | CopyDialog.CopyTargetAsWritten (shown by CopyDialog.AsWrittenIgnoresAcceptedValue) | CopyDialog.CopyTargetCorrected |
