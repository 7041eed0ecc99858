# Sleepy AI game: blink counter, level selection and answer checks

The program is a drowsiness check written with Streamlit. It films the
user for a fixed window and counts blinks. The count picks one of four
small games: reaction, mental arithmetic, digit memory or breathing. This
project models the parts of `app.py` that are pure logic:

- **The blink counter** (module `Blink`, `blink.dfy`). The loop reads
  frames. For every face detected in a frame it measures the left-eye
  aperture, the distance between the lid landmarks 159 and 145. A debounce
  flag makes each closure count once. An aperture under `0.004` counts a
  blink only if the flag is clear, and then sets the flag. Any other
  aperture clears the flag. A frame with no face changes nothing. A failed
  camera read ends the loop early and the partial count is kept.
  `CountBlinks` is the loop as an imperative method. Its input is the
  sequence of frames the camera and the face mesh would have delivered.
  It is proved against `Onsets`, which counts the closed observations
  whose previous observation was open, or which come first. The lemmas
  about `Onsets` and `Observations` state what the loop promises.
- **The level selection** (module `Levels`, `level.dfy`). This is the
  if/elif chain that maps the count to level 1–4, with thresholds 10, 20
  and 30.
- **The answer checks** (module `Answers`, `answers.dfy`):
  `check_math_answer` and `check_memory_answer` of the arithmetic and
  memory games. The message each check returns is modelled as a `Verdict`
  (`Blank`, `NotANumber`, `Correct`, `Wrong`). The expected answer lives
  in a `gr.State()`, which holds None until a question has been generated,
  so it is an `Option`. Python's `str.strip()` is modelled over the full
  set of characters `str.isspace()` accepts. Python's `int()` is
  simplified to surrounding whitespace, an optional `+`/`-` sign and at
  most 4300 ASCII decimal digits. The whitespace `int()` skips is the
  `str.isspace()` set without the four separators U+001C..U+001F, so the
  blank check and `int()` disagree on those four characters.
- `wrappers.dfy` holds the `Option` type.

Three behaviours of the code that are easy to miss:

- A frame without a face leaves the debounce flag as it was; it is not
  cleared (`FacelessFrameIgnored`).
- The level chain has no lower bound, so a negative count gives level 1.
  The count is never negative, because it starts at 0 and only grows.
- A failed capture shows an error and keeps the partial count. The model
  returns `cameraFailed` beside the count.

## Model

| member | source | states |
|---|---|---|
| `Blink.Aperture` | app.py:177-179 | the aperture is the absolute difference of the two lid coordinates: non-negative and equal to one of the two differences |
| `Blink.ClosedFlags` | app.py:176-183 | each face of a frame gives one observation, in order, and that observation is closed exactly when the face's aperture is under the threshold |
| `Blink.CountBlinks` | app.py:161-192 | starting from count 0 and a clear flag, the loop's final count is the number of blink onsets among the faces observed before the first failed capture; it reports a failure exactly when some capture failed |
| `Blink.ObserveFaces` | app.py:176-185 | the inner loop over the faces of one frame takes the count and flag left by the earlier observations to those left after the faces' observations have been added |
| `Blink.DebounceStep` | app.py:180-185 | one observation adds a blink exactly when the eye is closed and the flag was clear; afterwards the flag is set if the eye was closed and clear if it was open, so a closed eye with the flag already set adds nothing |
| `Blink.ClosedRunIsOneBlink` | app.py:180-183 | a run of n >= 1 closed observations adds exactly one blink after an open eye, and none when it continues a closure; the onset is the first observation of the run, never a later one |
| `Blink.FacelessFrameIgnored` | app.py:175-176 | inserting a frame with no face anywhere in the sequence, including inside a closure, leaves the observations and hence the count unchanged |
| `Blink.NoFaceNoBlink` | app.py:175-176 | a session in which no face is ever detected observes nothing and counts zero blinks |
| `Blink.FailureEndsObservations` | app.py:169-172 | when frame k is the first failed capture, the session's observations are exactly those of the first k frames, so the stored count is the count accumulated before the failure |
| `Blink.FramesAfterFailureIgnored` | app.py:169-172 | whatever frames follow a failed capture have no influence on the observations |
| `Blink.ObservationsAppend` | app.py:168-185 | frames captured without failure contribute their faces' observations in order, so a session split into two parts observes the first part followed by the second |
| `Blink.OnsetsMonotone` | app.py:176-185 | adding observations never lowers the blink count |
| `Blink.OnsetsBounded` | app.py:176-185 | the blink count is at most the number of closed observations, and twice the count is at most the number of observations (plus one if the last is closed), since two blinks are separated by an open observation |
| `Blink.OnsetsCountsOnsetPositions` | app.py:176-185 | the count equals the number of positions at which a closed observation follows an open one or starts the sequence |
| `Blink.AlternatingCountsEachClosure` | app.py:180-185 | closed and open observations alternating n times give exactly n blinks |
| `Levels.SelectLevel` | app.py:198-208 | the level is always in 1..4; for a non-negative count it is the count's tens digit plus one, capped at 4; a negative count gives level 1 |
| `Levels.SelectLevelMonotone` | app.py:198-208 | more blinks never select a lower level |
| `Levels.SelectLevelBoundaries` | app.py:198-208 | the boundaries hold exactly: 0 and 9 give 1, 10 and 19 give 2, 20 and 29 give 3, 30 gives 4 |
| `Levels.SelectLevelOnto` | app.py:198-208 | every level 1..4 is selected by some count: level l starts at 10(l-1), and levels 1..3 end at 10l-1 |
| `Answers.Strip` | app.py:54 | after stripping, the text is empty exactly when it held only `str.isspace()` whitespace, and otherwise neither end is whitespace |
| `Answers.TrimPadded` | app.py:54-57 | trimming a set of padding characters removes any such padding around a text whose ends are not padding, and nothing more |
| `Answers.StripPadded` | app.py:54 | stripping removes any whitespace padding around a text whose ends are not whitespace, and nothing more |
| `Answers.IntStrip` | app.py:57 | the text `int()` reads is empty exactly when the input held only the whitespace `int()` skips |
| `Answers.ParseIntText` | app.py:56-59 | a text the parser accepts is non-empty, starts with a digit or sign and ends in a digit |
| `Answers.ParseInt` | app.py:56-59 | a text of whitespace only is never read as an integer |
| `Answers.DecimalRoundTrip` | app.py:57 | the parser reads the decimal form of any integer of at most 4300 digits, with its minus sign if negative, back as that integer |
| `Answers.TooManyDigitsRejected` | app.py:56-59 | the decimal form of an integer of more than 4300 digits is rejected, as `int()` raises ValueError for it |
| `Answers.ParseDecimalString` | app.py:57 | `int()` reads back the decimal form of any integer of at most 4300 digits, negative ones included, whatever whitespace `int()` skips surrounds it |
| `Answers.LeadingZeroIgnored` | app.py:57 | a leading zero does not change the value of a digit string |
| `Answers.SignedDigitsText` | app.py:57 | an optional `+` or `-` followed by one to 4300 digits is read as the digits' value, negated after a minus, so `"+42"` is 42 |
| `Answers.ZeroPaddedText` | app.py:57 | a zero inserted after the sign, within the digit limit, does not change the value read, so `"042"` is 42 |
| `Answers.TooManyDigitsText` | app.py:56-59 | any digit string of more than 4300 digits, signed or not and leading zeros included, is not a number |
| `Answers.ParsePadded` | app.py:57 | padding a text with whitespace `int()` skips never changes how it is read, when the text's own ends are not such whitespace |
| `Answers.LoneSignRejected` | app.py:56-59 | a `+` or `-` without digits, padded or not, is not a number |
| `Answers.ParseRejectsNonDigit` | app.py:56-59 | a non-digit after the first character `int()` reads, or a first character that is neither digit nor sign, makes the answer unreadable |
| `Answers.CheckMathAnswer` | app.py:53-63 | the verdict is Blank exactly for whitespace-only input; NotANumber exactly for other input the parser rejects; Correct exactly when the parsed value is the expected answer; Wrong otherwise |
| `Answers.BlankIsNotANumber` | app.py:54-59 | input refused as blank would also have been unreadable, so the blank check only changes the message shown |
| `Answers.MathAnswerOfNumber` | app.py:53-63 | typing the decimal form of n (at most 4300 digits), padded with whitespace `int()` skips or not, is Correct exactly when n is the expected answer, and Wrong when no question has been asked |
| `Answers.SeparatorIsNotSkipped` | app.py:54-59 | an answer starting with one of U+001C..U+001F and holding a non-whitespace character passes the blank check but is not a number, whatever the expected answer |
| `Answers.TrailingSeparatorIsNotSkipped` | app.py:54-59 | an answer ending with one of U+001C..U+001F and holding a non-whitespace character passes the blank check but is not a number, whatever the expected answer |
| `Answers.CheckMemoryAnswer` | app.py:75-79 | the verdict is only ever Correct or Wrong, and Correct exactly when the input string equals the remembered sequence |
| `Answers.MemoryAnswerIsExact` | app.py:76 | the remembered digits with any text added before or after are Wrong: the memory check does not strip |

## Left out

- Camera capture, colour conversion and face-mesh inference (app.py:161, 173-174). These are foreign library calls. Their results are the input frame sequence: each `Frame` is a failed read or the list of detected faces. Each face is reduced to the two lid coordinates.
- Landmark coordinates are floats in the program and `real` in the model. Floating-point rounding of the subtraction and the comparison with 0.004 is not modelled.
- The wall-clock window, `time.sleep(0.1)` and the frame preview (app.py:164-168, 186-188). The loop runs until the frame sequence is used up. The page announces a 30-second measurement, but the loop bound is 10 seconds. With no clock in the model this difference cannot be expressed.
- Releasing the camera (app.py:189) is a resource operation. It is not modelled. The loop's two exits both reach it. An exception raised inside the loop would skip it.
- The Streamlit stage flow and all messages (app.py:149-160, 186-187, 191-196, 199-209, 228-231). These are presentation. The stored count is the method's result, and the message of each answer check is its `Verdict`. The wrong-answer messages echo the expected answer, and that text is not modelled.
- Building and launching the Gradio game, and extracting its URL (app.py:94-143). These are a UI library wrapped around dynamically typed return values.
- The thread-and-queue hand-off and its 10 × 0.5 s polling wait (app.py:212-226). Its point is concurrency.
- The async generators `reaction_game`, `show_and_hide` and `breathing_session` (app.py:16-32, 69-73, 83-92). They are timed UI streaming.
- `record_reaction` and `record_time` (app.py:34-47). They are floating-point timestamp arithmetic.
- `new_math_question` and `generate_sequence` (app.py:49-51, 65-67). They are random. Their sums lie in 20..198 and their sequences are five digits. The checks are modelled for any expected value.
- Answers.ParseInt: models Python's `int()` with an optional sign and ASCII digits only. Underscores between digits (`"1_000"`) and non-ASCII decimal digits, both of which `int()` accepts, are read as "not a number" by the model. The 4300-digit limit is the default of Python 3.11 and later; it can be changed at run time, and interpreters older than that limit have none.
- Re-running a session with the same input gives the same result. This needs no lemma, because `CountBlinks` is specified by a function of its input.
