# Attendance API core, modelled in Dafny

The service is a small Express application over a PostgreSQL database. This
project models the part of it with rules of its own:

- the **login decision** of `POST /login`: both fields must be present,
  the users table is searched for a row with the given email and password,
  and the first such row's `id`, `email` and `role` come back (status 400,
  401 or 200);
- the **attendance ledger** of `POST /attendance/in` and
  `POST /attendance/out`: clock-in appends a record for the employee and
  the day with only `in_time` set; clock-out looks up the day's records,
  takes the first one's `in_time`, computes the working hours and writes
  `out_time` and `working_hours` on every record of that employee and day,
  or answers 404 when there is none;
- the **working-hours arithmetic**: two `HH:MM:SS` times of day, read as
  instants of 1970-01-01, subtracted and divided by one hour, written with
  two decimals. It is kept in integers here: seconds since midnight, a
  signed difference in seconds, and hundredths of an hour.

Modules, one per component:

- `Wrappers` (`wrappers.dfy`): the `Option` datatype.
- `TimeOfDay` (`time_of_day.dfy`): `Format` writes seconds since midnight
  as `HH:MM:SS` text, as the clock does. `Parse` reads such text back.
  The two are proved inverse in both directions.
- `WorkingHours` (`working_hours.dfy`): `CentiHours` rounds a signed
  second count to hundredths of an hour. `ToFixed2` renders it as
  `toFixed(2)` does. `ParseFixed2` reads the decimal back. `HoursText` is
  the full computation from the two time texts.
- `Login` (`login.dfy`): the users table as a sequence and the login
  outcome as a datatype.
- `Attendance` (`attendance.dfy`): the `attendance` table as a
  `seq<Record>` field of class `Ledger`. The SELECT is the function
  `InTimes`, the UPDATE is the function `Close`, and the two handlers are
  the methods `ClockIn` and `ClockOut`.

The clock is a parameter. `today` is the one date both handlers use.
`clock` is the time of day in seconds since midnight, below 86400. The
source takes the clock-in date from the UTC ISO string but filters
clock-out by the database's `CURRENT_DATE`. The model assumes that both
denote the same day.

Neither SELECT has an ORDER BY, so the database may hand rows back in any
order. The model fixes one: rows come back in table order, so "the first
row" means the earliest row in the table. Every statement below about the
first login row or the first in_time holds under that choice.

Four points of the code's behaviour that a reader might expect otherwise:

- there is no approval check at login, so no 403 outcome;
- there are no register or admin endpoints;
- a second clock-in on the same day is not refused, so a day can hold two
  records. `TwoClockIns` and the client method
  `Attendance.TwoClockInsOneDay` show what then happens in the model: the
  clock-out measures from the first `in_time` in table order (the source
  takes whichever row the database returns first) and writes that figure
  on the second record as well;
- a clock-out earlier in the day than the clock-in gives a negative figure,
  and that figure is stored as it is (`QuarterHourBefore`).

## Model

| member | source | states |
|---|---|---|
| `TimeOfDay.Format` | index.js:58 | the clock's time of day is written as eight characters `HH:MM:SS` with colons at positions 2 and 5 |
| `TimeOfDay.Parse` | index.js:94-95 | a text reads as a time of day only as `HH:MM:SS` with hours below 24 and minutes and seconds below 60, and then as a second count below 86400 |
| `TimeOfDay.ParseFormat` | index.js:91-95 | every time the clock writes into `in_time` or `out_time` reads back as the same second count |
| `TimeOfDay.FormatParse` | index.js:91-95 | every readable time text is exactly the text the clock writes for its second count, so text and seconds are in one-to-one correspondence |
| `WorkingHours.CentiHours` | index.js:102 | the result is the nearest whole number of hundredths of an hour to the signed second count, a tie going away from zero |
| `WorkingHours.CentiHoursSign` | index.js:96 | rounding keeps the sign of the difference and is symmetric: the figure for `-d` is minus the figure for `d` |
| `WorkingHours.ToFixed2` | index.js:102 | the text has a point before its last two characters, and it starts with a minus sign exactly when the difference is negative |
| `WorkingHours.ToFixed2Value` | index.js:102 | the two-decimal text denotes exactly the rounded number of hundredths of an hour |
| `WorkingHours.ToFixed2Shape` | index.js:102 | the text is an optional minus sign, a whole number of hours without leading zeros, a point and two digits |
| `WorkingHours.ToFixed2Unique` | index.js:102-107 | no other text of that shape with the same sign reads back as the same rounded hundredths, so the text stored and returned is pinned down exactly |
| `WorkingHours.WholeTextValue` | index.js:102 | a whole number written without leading zeros is the decimal text of its own value |
| `WorkingHours.HoursText` | index.js:94-96 | a time text that does not read as a time of day gives "NaN" |
| `WorkingHours.HoursTextValue` | index.js:94-96 | for two readable times the text denotes (seconds(out) - seconds(in)) / 3600 rounded to hundredths, and it is negative exactly when out precedes in |
| `WorkingHours.HoursTextOfClock` | index.js:94-96 | between two clock readings the figure is the two-decimal text of their difference in seconds |
| `WorkingHours.HoursTextAtClock` | index.js:91-102 | a clock-out at `clock` after an in_time `t` reports (clock - seconds(t)) / 3600 hours, rounded to hundredths |
| `WorkingHours.NineToHalfPastFive` | index.js:94-96 | 09:00:00 to 17:30:00 gives "8.50" |
| `WorkingHours.QuarterHourBefore` | index.js:94-96 | 17:30:00 to 17:15:00 gives "-0.25": the negative figure is produced, not corrected |
| `Login.FirstMatch` | index.js:34-37 | the result is the first row whose email and password both equal the given ones, and there is none exactly when no row matches |
| `Login.Login` | index.js:26-46 | 400 exactly when the email or the password is missing or empty, whatever the table holds; with both present, 401 exactly when no row matches both; otherwise 200 with the first matching row's id, email and role |
| `Login.LoggedInEchoesCredentials` | index.js:43-46 | a successful login returns the given email, and the row it comes from holds the given password |
| `Login.LaterRowsIrrelevant` | index.js:34-45 | rows after a matching row never change who logs in |
| `Attendance.InTimes` | index.js:80-85 | the lookup is empty exactly when no record has this employee and day, and it has at most one entry per record |
| `Attendance.InTimesFirst` | index.js:80-91 | the first entry of a non-empty lookup is the in_time of the earliest record for this employee and day |
| `Attendance.InTimesFrom` | index.js:80-85 | every entry of the lookup is the in_time of some record for this employee and day |
| `Attendance.Close` | index.js:98-103 | every record of this employee and day gets the new out_time and working_hours; employee, day and in_time of every record stay; every other record is unchanged |
| `Attendance.CloseOverwrites` | index.js:98-103 | a second clock-out on the same day replaces the figures of the first |
| `Attendance.InTimesAfterClose` | index.js:80-103 | a clock-out changes no in_time lookup; with rows in table order, a repeated clock-out measures from the same in_time |
| `Attendance.InTimesAfterAppend` | index.js:60-64 | an appended record joins the end of the lookup for its own employee and day and of no other |
| `Attendance.CloseWellFormed` | index.js:98-103 | a clock-out with a readable out_time leaves every record well formed |
| `Attendance.InTimesReadable` | index.js:91 | in a well-formed table the in_time a clock-out picks always reads as a time of day |
| `Attendance.TwoClockIns` | index.js:60-64 | two clock-ins on an empty day give a lookup of both in_times, first one first |
| `Attendance.Ledger.ClockIn` | index.js:53-66 | exactly one record (employee, today, in_time = the clock's text, no out_time, no working_hours) is appended; every earlier record stays as it was; no duplicate check |
| `Attendance.Ledger.ClockOut` | index.js:73-108 | with no record for the employee today, "not found" and the ledger unchanged; otherwise the working-hours text from the first in_time, the UPDATE of every record of the day with that same text, a figure equal to (clock - seconds(in)) / 3600 rounded, and the well-formedness invariant kept |

## Left out

- Express, CORS, JSON middleware, dotenv and the listening server (index.js:1-8, 118-122) are framework wiring.
- The connection pool and its SSL options (index.js:11-18) are replaced by the in-memory `Ledger` and users sequence.
- The liveness route (index.js:21-23) has no logic.
- The status-500 answers (index.js:47-49, 67-69, 110-112) only pass database driver errors on. Database failures, including constraint violations, are not modelled.
- Reading the wall clock (`new Date()`, index.js:57-58, 77) and `CURRENT_DATE` is replaced by the `today` and `clock` parameters. The model assumes that the UTC date of clock-in and the database date of clock-out are the same day.
- JavaScript `Date` parsing is modelled only for the `HH:MM:SS` texts the ledger holds. Fractional seconds, `HH:MM` and `24:00:00` are read as invalid. The server's time zone is assumed to have a constant offset on 1970-01-01.
- WorkingHours.CentiHours: rounds the exact rational (d / 36 hundredths of an hour) half away from zero. `toFixed(2)` rounds the binary double nearest to d / 3600, so the two differ at some ties. For example, 3618 seconds gives "1.00" in JavaScript and "1.01" here.
- WorkingHours.ParseFixed2: reads "-0.00" as 0, as a numeric column stores it. The text returned to the caller keeps the sign.
- Attendance.InTimes: the SELECT of index.js:80-85 has no ORDER BY, so the source does not fix which in_time comes first, and an UPDATE may change the order of a later scan. The model returns rows in table order, so on a day with two records the in_time that clock-out measures from is the model's choice.
- Login.FirstMatch: for the same reason, when several users rows match the email and password, which one logs in is the model's choice (the earliest in table order).
- The `employee_id` of the attendance handlers (index.js:54, 74) is modelled as always present, as an integer. A body without it binds `undefined`, which the driver sends as NULL: clock-in would then insert a row no clock-out can find, or fail with a 500, and clock-out would match nothing and answer 404. Non-integer values are not modelled either.
- Login body fields are modelled as absent or a string. Other JSON values (numbers, booleans, objects), and how the driver would coerce them, are not.
- The `approved` column and the employees table are not read by this code, so they are not modelled.
- Concurrent requests on the same employee and day are not modelled. Each handler is one atomic step on the ledger.
