# Student dashboard: cohort filtering and aggregation

`student.py` is a Streamlit dashboard over six tables: a per-student summary (ID, name,
class, section, gender, average score, attendance rate, submission rate) and five detail
tables keyed by student ID (scores, attendance, assignments, remarks). A sidebar narrows the
summary to a *cohort* by class, section and gender. Five tabs then show:

- overview metrics, plus the top and bottom five students of the cohort;
- subject and term score averages over the cohort's score rows;
- the monthly attendance rate of the cohort, and one student's present and absent days;
- completion rates per subject, the next ten deadlines, and one student's submitted and
  outstanding assignments;
- the frequency of each remark in the cohort, and one student's remarks, newest first.

This project models that filtering and aggregation layer in Dafny. The modules are:

- `Seqs`: generic sequence tools. It provides an order-preserving filter (`Where`),
  counting, a sort with `head(n)` (`Rank`), and sums, means and fractions over exact reals.
- `TextOrder`: Python's string order and `sorted(unique())`.
- `Tables`: the row types, dates and months. It covers one student's rows
  (`table[table['ID'] == id]`) and the inner merge with the cohort's IDs.
- `Cohort`: the three selectors, their option lists and the cohort they select. The
  session's filter state is a class whose methods update it the way the sidebar does.
- `Preselect`: the drop-down indices as the code computes them, with the cases where they go
  wrong.
- `Ranking`: the top and bottom performers.
- `Resolve`: turning a picked name into a student ID.
- `Scores`: the overview metrics and the subject and term means.
- `Presence`: attendance.
- `Coursework`: assignments.
- `Feedback`: remarks.

Numbers are exact rationals (`real`), so means and rates are exact. A missing mean is
`None`, standing for the "N/A" of an empty cohort or pandas' NaN. Dates are parsed dates;
a date pandas could not parse (NaT) is `None`. The current time is a parameter (`Instant`).

Two points of the code's behaviour shape the model:
- `sort_values` uses pandas' default sort, which is not stable. So the model leaves open
  which of several tied rows is shown, rather than promising table order.
- When a new class no longer offers the stored section, the code evidently intends the
  section selector to fall back to "All": line 70 already opens at "All" whenever "All" is
  stored. Yet `available_sections.index` raises ValueError for a section no longer offered
  (see Findings). `Cohort.FilterState.SelectClass` models the fall-back;
  `Preselect.StaleSectionRaises` records the code as written.

## Model

| member | source | states |
|---|---|---|
| Cohort.FilterState.constructor | student.py:47-53 | a new session has every selector at "All" |
| Cohort.FilterState.ApplyFilters | student.py:80-86 | the three guarded narrowings yield exactly `CohortOf` for the stored selection |
| Cohort.CohortOf | student.py:80-86 | the cohort holds exactly the summary rows every selector admits, with their summary multiplicity and in summary order |
| Cohort.StepsMakeCohort | student.py:80-86 | narrowing class, then section, then gender, each skipped at "All", equals the single combined filter |
| Cohort.AllSelectsEverything | student.py:80-86 | with every selector at "All" the cohort is the whole summary |
| Cohort.Narrow | student.py:82 | a column equality filter keeps exactly the matching rows, each as often as in the input, in input order |
| Cohort.ClassOptions | student.py:58 | "All" followed by the classes occurring in the summary, strictly increasing, so each appears once |
| Cohort.GenderOptions | student.py:75 | "All" followed by the genders occurring in the summary, strictly increasing |
| Cohort.SectionOptions | student.py:63-65 | only "All" while the class is "All"; otherwise "All" followed by exactly the sections of that class, strictly increasing |
| Cohort.SectionOptionsAreCanonical | student.py:65 | any strictly increasing list of exactly the class's sections is the one offered |
| Cohort.PreselectIndex | student.py:59 | the index points at the stored choice when it is offered, and at "All" (index 0) otherwise |
| Cohort.FilterState.SelectClass | student.py:56-71 | the class becomes the pick; the section is kept if the new class offers it and reset to "All" otherwise; every selector then holds an offered value |
| Cohort.FilterState.SelectSection | student.py:67-71 | the section becomes the pick; the rest is unchanged and validity is kept |
| Cohort.FilterState.SelectGender | student.py:73-77 | the gender becomes the pick; the rest is unchanged and validity is kept |
| TextOrder.SortedDistinct | student.py:58 | `sorted(unique())` is strictly increasing and holds exactly the input's values |
| TextOrder.IncreasingIsUnique | student.py:58 | two strictly increasing lists with the same values are equal |
| TextOrder.LessTransitive | student.py:58 | Python's string order is transitive |
| TextOrder.LessTotal | student.py:58 | any two distinct strings are ordered one way or the other |
| Preselect.IndexAsWritten | student.py:59 | as written: 0 for "All"; otherwise ValueError exactly when the stored value is absent, else one more than the stored value's position in `unique()` (first-occurrence) order |
| Seqs.Distinct | student.py:59 | `unique()`: every value of the input exactly once, in order of first occurrence |
| Preselect.SectionIndexAsWritten | student.py:70 | as written: ValueError exactly when the stored section is not among the new options, else its position there |
| Preselect.StoredClassShowsAnother | student.py:56-60 | with classes listed "B" before "A", stored "B" opens at "A"; the corrected index opens at "B" |
| Preselect.StaleSectionRaises | student.py:63-71 | a section stored under one class and absent under the next raises; the corrected index falls back to "All" |
| Scores.OverviewOf | student.py:91-94 | the total is the cohort's size; each average is N/A exactly for an empty cohort and otherwise times the size equals the column's sum |
| Scores.OverviewBounds | student.py:91-94 | averages of rates in [0,1] are in [0,1], and of scores in [lo,hi] are in [lo,hi] |
| Ranking.TopPerformers | student.py:109 | min(5, size) cohort rows, in non-increasing score order; every row left out scores no higher than every row shown |
| Ranking.BottomPerformers | student.py:119 | min(5, size) cohort rows, in non-decreasing score order; every row left out scores no lower than every row shown |
| Ranking.SmallCohortIsCovered | student.py:109-119 | with distinct scores and at most ten students, each student appears in one of the two lists |
| Tables.ForStudent | student.py:213 | one student's rows: exactly the rows with the ID, with their multiplicity and in table order |
| Tables.CohortRows | student.py:164 | the inner merge: each detail row repeated once per cohort row with its ID, so exactly the rows of cohort students appear |
| Tables.JoinUniqueIsFilter | student.py:250 | with unique cohort IDs the merge is the order-preserving filter on the ID |
| Tables.DateKeyOrders | student.py:321 | on well-formed dates the sort key follows calendar order, and equal keys mean equal dates |
| Resolve.NameOptions | student.py:194 | the names offered, each once: exactly the names of cohort rows |
| Resolve.ResolveByName | student.py:198-210 | "not found" exactly when no row has the name; one row gives its ID; several rows give exactly their IDs as the choices, in cohort order |
| Resolve.FirstMatchId | student.py:272 | IndexError (None) exactly when no row has the name; otherwise the ID of the first row with it |
| Resolve.OtherTabsTakeFirst | student.py:198-210 | the Performance lookup and the first-match lookup agree, and with several rows the other tabs take the first choice |
| Resolve.OfferedNamesResolve | student.py:192-198 | a name picked from the drop-down always resolves |
| Scores.GroupMeans | student.py:166 | `groupby(key).mean()`: one entry per occurring key, holding the mean over that key's rows |
| Scores.SubjectMeans | student.py:164-166 | one entry per subject of a cohort student's score row, the mean of that subject's cohort score rows |
| Scores.SubjectTermMeans | student.py:179 | the same per subject and term pair |
| Scores.TermsRefineSubjects | student.py:166-179 | a subject has a subject bar exactly when it has a bar for some term |
| Scores.SubjectMeansBounds | student.py:166-179 | scores in [lo,hi] give subject and term means in [lo,hi] |
| Presence.StudentAttendance | student.py:273-278 | "no data" exactly when the student has no row; otherwise present days count the rows marked present, absent days those marked absent, and together all the student's rows |
| Presence.MonthlyAttendance | student.py:250-254 | one entry per month with a dated cohort row, equal to present over present plus absent for that month, which counts every row of the month; every entry is in [0,1] |
| Presence.MonthlyAttendanceAsWritten | student.py:251-254 | as written: no trend and no error for an empty merge; otherwise KeyError on the `True` column exactly when no dated row is present, on `False` exactly when some dated row is present and every dated row is, and else the intended trend |
| Presence.PerfectAttendanceRaises | student.py:253-254 | one present row raises KeyError, while the intended trend is that month at rate 1 |
| Coursework.StudentSubmissions | student.py:340-345 | "no data" exactly when the student has no row; otherwise submitted and not submitted count the two kinds of rows and add up to all of them |
| Coursework.SubmittedRows | student.py:361 | exactly the submitted rows, each as often as in the input, in input order |
| Coursework.HistogramMatchesPie | student.py:344-361 | the marks histogram covers as many assignments as the pie counts submitted |
| Coursework.CompletionRates | student.py:300-304 | one entry per subject of the cohort; NaN exactly when the subject has no submission, else 100 times submitted over total |
| Coursework.CompletionRateBounds | student.py:302-304 | a rate shown lies in (0,100] and equals 100 exactly when every assignment of the subject was submitted |
| Coursework.UpcomingRows | student.py:319 | exactly the rows whose deadline is at or after now, each as often as in the input, in input order; a missing deadline is never upcoming |
| Coursework.UpcomingDeadlines | student.py:319-324 | min(10, number upcoming) rows drawn from the upcoming rows without repetition beyond their multiplicity (a sub-multiset), earliest deadline first; no upcoming row left out is earlier than a row shown |
| Coursework.UpcomingInCalendarOrder | student.py:321 | with well-formed deadlines, the list never shows a later date before an earlier one |
| Coursework.UpcomingBelongsToCohort | student.py:300-319 | every upcoming row shown is an upcoming assignment of a cohort student |
| Feedback.RemarkFrequency | student.py:386 | one entry per remark occurring in the cohort's rows, equal to its multiplicity in the remark column; absent remarks occur nowhere |
| Feedback.OccurrencesAreMultiplicity | student.py:386 | counting the rows with a remark gives its multiplicity |
| Feedback.StudentRemarks | student.py:406 | a permutation of the student's remarks: dated ones first, newest to oldest, then the undated ones in table order |
| Feedback.NewestFirstInCalendarOrder | student.py:406 | with well-formed dates, no remark is listed before a later-dated one |

## Left out

- Reading the CSV files (lines 13-42) and parsing them is not modelled. The tables are
  sequences of typed rows; a date that fails to parse is `None`. Class values that pandas
  would read as numbers are modelled as text. So for numeric classes the model's class
  drop-down is in text order ("10" before "9"), whereas `sorted` at line 58 orders numbers
  numerically.
- Streamlit widgets, page layout, tabs and the session-state keys are not modelled. Only the
  values the selectors hold and the options they offer are modelled. The selectors' index
  bookkeeping beyond the findings below is also left out.
- Charts are not modelled: the plotly histograms, bars, pies, lines and the scatter matrix
  of the metrics, with the bins of the score and rate histograms (lines 127-154 and
  236-246).
- Number formatting (`:.1f`, percentages) and `strftime` display strings are not modelled.
  Dates and months are values.
- Floating point is not modelled. Means and rates are exact rationals, so rounding and NaN
  propagation are not captured beyond the None cases named above.
- CSV export of the cohort (lines 434-446) is not modelled.
- The per-student score bars (lines 213-219) are not modelled beyond the row selection
  `Tables.ForStudent`.
- The remark trend over time (line 422) is not modelled. It is a chart of per-date counts.
- `value_counts` orders remarks by frequency. The model keeps only the counts, which is all
  the pie uses.
- The `if selected_student:` checks (lines 197, 271, 338, 404) are not modelled. They test a
  name's truthiness; the model treats every picked name as given.
- The upcoming-deadline display's column projection and colouring are not modelled.
- `datetime.now()` is a parameter (`Coursework.Instant`), not a clock.
- Ranking.TopPerformers: which of several rows with equal scores is shown is left open,
  because pandas' default sort is not stable.
- Ranking.BottomPerformers: the same for the bottom list.
- Coursework.UpcomingDeadlines: which of several rows with the same deadline is shown is
  left open, for the same reason.
- Feedback.StudentRemarks: the order among remarks of the same date is left open, for the
  same reason.
- Tables.DateKeyOrders: assumes well-formed dates (month 1-12, day 1-31), as a parsed date
  always is.
- Coursework.UpcomingInCalendarOrder: assumes well-formed deadlines, likewise.
- Feedback.NewestFirstInCalendarOrder: assumes well-formed remark dates, likewise.

## Findings

| source | as written | input that shows it | evidently intended | confidence | as-written member | corrected member |
|---|---|---|---|---|---|---|
| student.py:59, student.py:76 | the index is the stored value's position in `unique()` (first-occurrence) order plus one, but the options are sorted | classes listed "B" then "A", stored class "B": index 1, which shows "A" | the stored value's position in the sorted options | not executed | Preselect.StoredClassShowsAnother | Cohort.PreselectIndex |
| student.py:70 | `available_sections.index(...)` of a section the newly selected class does not offer raises ValueError | section "A" stored under class "10", then class "11" (sections: "B") selected | the section falls back to "All" | not executed | Preselect.StaleSectionRaises | Cohort.PreselectIndex |
| student.py:253-254 | for a non-empty merge, after `unstack()` a column `True` or `False` exists only if some dated row has that value, so the rate raises KeyError | one attendance row, dated and present | that month at rate 1 (and rate 0 when every row is absent) | not executed | Presence.PerfectAttendanceRaises | Presence.MonthlyAttendance |
