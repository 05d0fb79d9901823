# Training platform: enrolment and worker provisioning in Dafny

This project models the core of a Django training platform. The platform keeps a skill
catalogue, a course catalogue, worker profiles and course enrolments.

What is modelled:

- **The enrol action** (`enroll_course`). It looks up the active course, then finds or
  lazily creates the caller's worker profile. It refuses a worker who already holds an
  active enrolment, then refuses a full course, and otherwise stores one `Enrollment`.
- **Worker provisioning.** Four views share the same lookup of the caller's profile. When
  no profile exists:
  - up to 100 random candidates `EMP<n>` with `n` in 10000..99999 are tried, stopping at
    the first one no worker holds;
  - when all 100 are taken, the id falls back to `EMP<timestamp>`;
  - the new worker is stored in department `General` with position `Employee`.
- **The derived capacity values**: `enrolled_count`, `available_spots` and `is_full`.
- **The uniqueness declarations of the tables.** They are stated as table invariants, and
  the storage enforces them on insert.
- **The read-only pages.** These are the course, skill and worker lists with their
  filters; the skill and worker detail pages; the home page; the dashboard; the learner's
  own course list and profile.
- **The small model helpers**: `get_difficulty_color`, `Worker.full_name` and
  `Worker.__str__`.

Modules follow the applications of the repository:

- `Strings`: the Python string operations the views rely on. These are `strip`, `lower`,
  case-insensitive containment, `isdigit`, `int` and decimal formatting.
- `Tables`: query-set filtering, slicing and `distinct` over sequences of rows.
- `Skills` and `SkillsViews`: skills/models.py and skills/views.py.
- `Workers`: workers/models.py.
- `WorkersViews`: workers/views.py.
- `Training`: training/models.py. It also holds the admission rule, both as written and
  corrected.
- `TrainingViews`: training/views.py.
- `CoreViews`: core/views.py.
- `Store`: the class `Database`. It holds the tables that the request handlers change in
  place, inserts rows the way the storage does (refusing a row that breaks a uniqueness
  constraint), and runs the provisioning loop.
- `Scenarios`: whole-request sequences of the enrol action on a fresh database.

Modelling conventions:

- Every table is a sequence held in its default ordering. Newest-first tables (workers,
  courses, enrolments) receive inserts at the front. A slice such as `[:5]` is therefore a
  prefix of the filtered table.
- A query parameter is a string, and `""` stands for an absent parameter. This matches the
  views' `if query:` tests, which treat a missing value and an empty one alike.
- The random draws are an input: a sequence of exactly 100 numbers in range. So is the
  clock reading (`now`).
- A storage refusal (an integrity error) is a distinct outcome, because the views do not
  catch it: `ProfileConflict` or `EnrollmentConflict` for the enrol action, `ServerError`
  for the pages.

## Model

| member | source | states |
|---|---|---|
| Strings.Strip | training/views.py:28 | The result is the input with its leading and trailing Python whitespace removed. It is empty exactly when the input is all whitespace, and otherwise starts and ends with a non-space. |
| Strings.StripUnique | training/views.py:28 | `Strip`'s contract fixes its result: any text that has no whitespace at either end and sits in the input between whitespace-only margins is the stripped text. |
| Strings.StripPadded | training/views.py:28 | Any whitespace before and after a text that neither starts nor ends with whitespace is all that stripping removes. |
| Strings.StripIdempotent | training/views.py:28 | Stripping twice is the same as stripping once. |
| Strings.Contains | workers/views.py:15-19 | Containment holds exactly when the pattern occurs at some position of the text. This is the meaning of `icontains` once both sides are lower-cased. |
| Strings.Decimal | training/views.py:89 | A number's decimal form is non-empty and all digits. It has no leading zero: it starts with `0` exactly when the number is 0. |
| Strings.DecimalRoundTrip | training/views.py:33-34 | Reading the decimal form of `n` back with `int` gives `n`. |
| Strings.FiveDigitDecimal | training/views.py:89 | Every number in 10000..99999 prints as exactly five digits. |
| Skills.NewSkill | skills/models.py:26-37 | A new skill defaults to difficulty `beginner` (colour `success`), 40 estimated hours and no prerequisites. |
| Skills.DifficultyColor | skills/models.py:48-55 | The colour is one of the five badge colours. It is something other than `secondary` exactly when the level is one of the four difficulty levels. |
| Skills.DifficultyColorsDistinct | skills/models.py:49-54 | The four difficulty levels get four different colours. |
| Skills.RequiredForInverse | skills/models.py:37 | `b` is in `a.required_for` exactly when `a` is among `b`'s prerequisites. |
| Skills.PrerequisitesNotSymmetric | skills/models.py:37 | In a valid two-skill catalogue, A can be a prerequisite of B while B is not one of A. |
| Skills.PrerequisiteCycleAllowed | skills/models.py:37 | Two skills that require each other form a valid catalogue, so no acyclicity is assumed. |
| SkillsViews.SkillList | skills/views.py:6-24 | A skill is listed exactly when it is in the catalogue, is active, and matches all three filters. The filters are exact category, `q` in name or description, and exact difficulty. The list has no duplicates. |
| SkillsViews.FindActiveSkill | skills/views.py:38 | The result is an active skill with that key, and it is absent exactly when none exists. |
| SkillsViews.SkillDetail | skills/views.py:36-39 | The result is not-found exactly when no active skill has the key. Otherwise there are at most 4 related skills; each is active, in the same category and not the skill itself. A list shorter than 4 holds every such skill. The list is the first of those skills in catalogue order. |
| Workers.FindByUser | workers/models.py:10 | The result is the worker linked to the account, and it is absent exactly when none is. |
| Workers.FindByUserUnique | workers/models.py:10 | In a valid table, looking up a worker's account gives back that same worker. |
| Workers.FullName | workers/models.py:30-32 | An account whose first and last names are both blank gets its username. Otherwise the result is `first + " " + last` with only whitespace cut from both ends, and it starts and ends with a non-space. By `Strings.StripUnique` this is exactly the stripped joined name. |
| Workers.Display | workers/models.py:24-25 | The result is the full name, then `" - "`, then the employee id. |
| Workers.AddWorkerSkill | workers/models.py:43-58 | The row is refused exactly when the (worker, skill) pair already exists. An accepted row is at level `beginner`, and the table stays unique. |
| Training.NewEnrollment | training/models.py:80-94 | A new enrolment is valid, active and `enrolled`, with progress 0, no certificate and no rating. |
| Training.EnrolledCount | training/models.py:43-45 | The count never exceeds the number of rows. Its meaning is stated by the next two rows. |
| Training.EnrolledCountPrepend | training/models.py:43-45 | A new row adds one to a course's count exactly when it is an active enrolment of that course. |
| Training.EnrolledCountZero | training/models.py:43-45 | The count is zero exactly when the course has no active enrolment. |
| Training.AvailableSpots | training/models.py:47-53 | The free places never exceed the capacity. They are zero exactly when the course is full, and otherwise they and the count add up to the capacity. |
| Training.ViewAdmission | training/views.py:109-117 | The decision as written is a duplicate exactly when an active enrolment exists. Full is decided only on a full course, and admit only with a free place. |
| Training.Admission | training/views.py:109-117 | The corrected decision is a duplicate exactly when any row for the pair exists, active or not. Admit implies no row exists and a place is free. |
| Training.ViewAdmissionBreaksUniqueness | training/views.py:110 | In a valid table whose only row for the pair is inactive, the rule as written admits, and the row it stores breaks `unique_together`. |
| Training.AdmissionAgreesWithView | training/views.py:110 | When every row for the pair is active, the corrected rule and the written rule decide the same. |
| Training.Enroll | training/views.py:109-124 | With the corrected admission rule, admit prepends exactly one new enrolment. Every other decision leaves the table unchanged. |
| Training.EnrollPreserves | training/views.py:115-124 | With the corrected admission rule, one enrolment keeps the table valid and keeps the course within its capacity when it was. It adds one to that course's count on admission and leaves every other course's count unchanged. |
| Training.EnrollmentsOf | core/views.py:60 | The result holds exactly the worker's rows, active or not. |
| Training.ActiveEnrollmentsOf | workers/views.py:43 | The result holds exactly the worker's active rows. |
| Training.CompletedCount | core/views.py:61 | The count is at most the number of the worker's rows. It is zero exactly when none of them is `completed` (inactive rows included). Its value is fixed by the next row. |
| Training.CompletedOf | core/views.py:61 | The rows kept are exactly the worker's rows whose status is `completed`. |
| Training.CompletedCountIsFilterLength | core/views.py:61 | The completed count equals the number of the worker's completed rows. |
| Training.NoEnrollmentsFor | core/views.py:59-61 | A worker id newer than every row has no enrolments and none completed. |
| Training.FindActiveCourse | training/views.py:82 | The result is an active course with that key, and it is absent exactly when none exists. |
| Training.ReplayPreserves | training/views.py:109-124 | With the corrected admission rule, under any sequence of requests served one at a time, the table stays valid and every course stays within its capacity. |
| Training.AddModule | training/models.py:68 | The row is refused exactly when the (course, order) pair already exists, and the table stays unique. |
| Training.AddProgress | training/models.py:121 | The row is refused exactly when the (enrolment, module) pair already exists, and the table stays unique. |
| Store.EmployeeId | training/views.py:89 | The id is `EMP` followed by at least one character. |
| Store.EmployeeIdInjective | training/views.py:89-91 | Different numbers give different ids, so each draw tests a different candidate. |
| Store.DrawnEmployeeIdLength | training/views.py:89 | Every drawn id has 8 characters, within the 50-character field. |
| Store.Database.CreateWorker | workers/models.py:10-11 | The insert succeeds exactly when the account has no worker, the id is free and the id fits in 50 characters. The stored row is put in front, and the tables stay valid. |
| Store.Database.CreateEnrollment | training/models.py:105 | The insert succeeds exactly when no row exists for the pair. The stored row is a fresh default enrolment put in front. |
| Store.Database.NewEmployeeId | training/views.py:87-94 | Without fallback, the id is `EMP` plus the first draw no worker holds: it is free, 8 characters long, and every earlier draw was taken. With fallback, every draw was taken and the id is `EMP` plus the timestamp. |
| Store.Database.GetOrCreateWorker | training/views.py:85-107 | An existing profile is returned and nothing changes. Otherwise exactly one worker is put in front (`Store.Provisioned`): the next key, the caller's account, active, in `General` as `Employee`, with an id no worker held. That id comes from the first draw no worker holds, or the timestamp once all 100 draws are taken. A refused insert changes nothing, and happens only when every draw is taken and the timestamp id is taken or longer than 50 characters (`Store.ProvisionRefused`). |
| Store.GetOrCreateTwice | core/views.py:38-57 | A second lookup finds the profile the first created, and at most one worker was added. |
| TrainingViews.NormalizeSkillQuery | training/views.py:28-31 | The result is empty exactly when the parameter is blank or `none` in any case. Otherwise it is the stripped parameter. |
| TrainingViews.ClassifySkillQuery | training/views.py:32-36 | An empty query does not filter. An all-digit query filters by that id. Any other query filters by a part of the name. |
| TrainingViews.ClassifyDigits | training/views.py:32-34 | A parameter that strips to digits filters by the id those digits spell. |
| TrainingViews.SkillQueryOfId | training/views.py:33-34 | A skill id written in decimal, with any whitespace before and after it, selects exactly that id. |
| TrainingViews.CourseList | training/views.py:12-45 | A course is listed exactly when it is active and matches `q` in the title or description, the exact difficulty and the skill filter. The list has no duplicates. The page also lists the active skills and echoes the cleaned skill parameter. |
| TrainingViews.EnrollCourse | training/views.py:79-127 | The checks run in the source's order. A missing course is not-found and changes nothing. An active enrolment gives already-enrolled and a full course gives full, each leaving enrolments unchanged. Admission stores exactly one default enrolment. A caller without a profile who gets past the course lookup is left with exactly one new worker in front of the table, whatever the enrolment decision. That worker is active, `General`/`Employee`, with an id from the first draw no worker holds, or the timestamp once all 100 draws are taken. A profile conflict happens only under `Store.ProvisionRefused` and changes nothing. Capacity is kept, and other courses' counts are unchanged. |
| TrainingViews.MyCourses | training/views.py:129-161 | The page shows the caller's active enrolments. A profile created by this call is one new active `General`/`Employee` worker in front of the table, with an id from the first draw no worker holds, or the timestamp once all 100 draws are taken, and has no enrolments. A server error happens only under `Store.ProvisionRefused` and changes nothing. |
| WorkersViews.WorkerList | workers/views.py:7-25 | A worker is listed exactly when it is active, `q` occurs (ignoring case) in one of the five fields, and the department matches exactly. |
| WorkersViews.DepartmentsAsWritten | workers/views.py:28 | The choices as the query is written cover exactly the departments of active workers. |
| WorkersViews.DepartmentsAsWrittenRepeat | workers/views.py:28 | Two active `General` workers created at different times make `General` appear twice. |
| WorkersViews.Departments | workers/views.py:28 | The choices hold each active worker's department exactly once. |
| WorkersViews.FindActiveWorker | workers/views.py:41 | The result is an active worker with that key, and it is absent exactly when none exists. |
| WorkersViews.ActiveSkillsOf | workers/views.py:42 | The result holds exactly the worker's active skill rows. |
| WorkersViews.NoSkillsFor | workers/views.py:81 | A worker id newer than every skill row has no skills. |
| WorkersViews.WorkerDetail | workers/views.py:39-50 | The result is not-found exactly when no active worker has the key. Otherwise it shows the worker, its active skills, and a prefix of at most 5 of its active enrolments (all of them when there are fewer). |
| WorkersViews.MyProfile | workers/views.py:53-89 | An existing profile is shown unchanged with its active skills and enrolments. A created one is a single new active `General`/`Employee` worker in front of the table, with an id from the first draw no worker holds, or the timestamp once all 100 draws are taken, and no skills or enrolments. A server error happens only under `Store.ProvisionRefused` and changes nothing. |
| CoreViews.ActiveWorkerCount | core/views.py:12 | The count is at most the number of workers, and zero exactly when none is active. |
| CoreViews.ActiveWorkerCountPrepend | core/views.py:12 | A worker put in front of the table adds one to the count exactly when it is active. |
| CoreViews.Home | core/views.py:8-19 | The page shows at most 6 active skills and at most 12 active courses, each a prefix of the active rows in table order. A shorter list holds them all. The head count is zero exactly when no worker is active. |
| CoreViews.HomeCountMatchesDirectory | core/views.py:12 | The head count equals the size of the unfiltered worker directory. |
| CoreViews.Dashboard | core/views.py:27-63 | An existing profile is reused. A new one is a single active `General`/`Employee` worker in front of the table, with an id from the first draw no worker holds, or the timestamp once all 100 draws are taken, so the active head count rises by one. A server error happens only under `Store.ProvisionRefused`. The page shows at most 5 of the worker's enrolments (a prefix, or all of them when fewer) and the number of its completed enrolments. A new profile shows none. |
| Scenarios.CapacityOneScenario | training/views.py:114-124 | In a course with one place, the first worker is admitted as `enrolled` with progress 0, and the second is refused as full. |
| Scenarios.DoubleEnrollmentScenario | training/views.py:109-112 | A second enrolment in the same course is refused as already enrolled, and the first row stays as stored. |

## Left out

- Concurrency: requests are served one after another. The check-then-insert races of the
  enrol action and of provisioning are not modelled.
- Randomness and the clock: `random.randint` and `timezone.now()` are inputs. They are a
  sequence of 100 draws in 10000..99999 and a natural-number timestamp.
- HTTP plumbing: each view is reduced to an outcome value plus the state change. This
  covers `render`, `redirect`, `messages`, `login_required`, `get_object_or_404` and the
  templates.
- `course_detail` and `about` are not part of this model; they read data without rules.
  The same goes for the admin configuration, the sample-data commands,
  `create_superuser.py` and the URL configuration.
- Dates, images, files, URLs, `price`, `instructor`, `bio`, `phone` and `review` are not
  modelled; the modelled rules do not read them.
- `SkillCategory` and the category list of `skill_list` are not modelled. The category
  parameter is modelled as an optional number, and a non-numeric category value, which
  fails in the source, is not modelled.
- core/models.py is not part of this model. `is_active` is taken as a plain flag on every
  row. A row the views create is taken to start active: the enrol action does not pass
  `is_active`, so `Training.NewEnrollment` relies on that field's default being true. Every
  capacity result depends on this, because only active enrolments count.
- `lower`, `isdigit` and `icontains` are modelled on ASCII letters and digits only.
  `strip` uses Python's whitespace set.
- The status and proficiency choice fields are modelled as enumerations, so an
  out-of-range value cannot be written. Status changes happen only through the admin and
  are not modelled.
- Store.Database.CreateWorker: the 50-character limit on `employee_id` is enforced as a
  refusal, as a strict database backend does; SQLite would store the longer value.
- TrainingViews.EnrollCourse: the stored worker is tied to the caller only through the
  account id (`user.id`), not the whole account record.
- Skill ordering by name, WorkerSkill ordering and module ordering are not modelled. A
  skill table is assumed to be held in its name order where `home` slices it.
- A course's `capacity` is any natural number. The field accepts 0, so a course can be
  full from the start.

## Findings

| source | as written | input that shows it | evidently intended | confidence | as-written member | corrected member |
|---|---|---|---|---|---|---|
| training/views.py:110 | The duplicate check of the enrol action looks only at active enrolments, while `unique_together` (training/models.py:105) covers every row. | The worker's only enrolment in the course is inactive, and the course has room. The view admits, and the insert violates the unique constraint, so the request ends in an integrity error. | Any existing row for the pair is treated as already enrolled (or the inactive row is reactivated). | high, not executed | Training.ViewAdmissionBreaksUniqueness | Training.Admission |
| workers/views.py:28 | `values_list('department', flat=True).distinct()` runs with the default ordering on `created_at`. That ordering column joins the `SELECT DISTINCT`. | Two active workers in `General`, created at different times: `General` is offered twice in the department filter. | Each department is offered once (clear the ordering before `distinct()`). | medium, not executed | WorkersViews.DepartmentsAsWrittenRepeat | WorkersViews.Departments |
