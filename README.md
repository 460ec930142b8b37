# LM3S811 FreeRTOS demo: the sequential core of `main.c`

A model of the integer and array logic of the Cortex-M3 (LM3S811) demo application. The
demo's tasks and interrupt handler are:

- **vSensorTask** produces a synthetic temperature that moves one unit per cycle. It starts at 1, drops to 0, climbs to 127, and from then on walks between 127 and 16.
- **vFilterTask** keeps the last `N` samples in `array[10]` and sends on their truncated mean.
  `N` is a window size between 1 and 10, chosen by typing a digit on the UART.
- **vGraficTask** shows the mean and `N` as text, produced by `itoa` into one static buffer.
  It scrolls a two-row bar graph across a 128-byte `pixel` image.
- **vTopTask** has `vOwnTaskGetRunTimeStats` build a table of per-task run times with
  `strcat` and `longToChar`. It then hands the table to `to_terminal`.
- **vUART_ISR** decodes received digits into window sizes. It also drains the outbound
  string one byte per transmit interrupt, through the cursor `pcNextChar`.

Each part is modelled the way the C code works:

- the tasks' loop state and the UART state are classes whose methods update fields and arrays;
- `longToChar`, `itoa` and `strcat` are loops over arrays;
- the digit decode, the bar masks and the formats are pure functions.

Each part is proved against a reference function, and the properties are proved about that function.

Modules (one file each):

- `Common`: Option, the window-size type `WindowSize` (`[1, 10]`), C strings (`CString`, `StringAt`).
- `Serial`: the receive digit decode, the transmit cursor, `to_terminal` and `vUART_ISR`.
- `Sensor`: the triangle wave of `vSensorTask`.
- `Filter`: the shift-in and 32-bit average of `vFilterTask`.
- `Text`: the digit alphabet, `itoa` with its static buffer, and `longToChar`.
- `Grafic`: the bar quantisation, the `bv8` masks and the in-place scroll of `vGraficTask`.
- `Stats`: the report text of `vOwnTaskGetRunTimeStats`, and the `strcat` loop that builds it.

Where the code and the design intent differ, the model follows the code:

- **Level 15 does not fill the column.** `0b11111111 << (16 - 15)` is `0xFE`, which leaves bit 0 of the upper cell dark. In the image's bytes the most significant bit is the lowest pixel of a cell, so the dark pixel is the top of the column, and level 15 lights 15 of 16 pixels (`Grafic.FilterRangeLevels`).
- **Levels 0 and 1 look the same.** The 9-bit mask `0b111111111` makes level `v < 8` light `v - 1` pixels, so both light nothing (`Grafic.LitPixels`).
- **Levels above 16 are not handled.** The level is `(uint8_t)avg / 8`, which goes up to 31. From 17 on, the shift count `16 - value` is negative, which is undefined behaviour in C, so the model requires a level of at most 16. Filter outputs stay at or below 127, i.e. level 15 (`Grafic.FilterRangeLevels`).
- **`itoa(0)` is the empty string** (`Text.ItoaZero`).
- **The two `itoa` calls overwrite each other.** The calls in the graphic task share one buffer, so the second overwrites the tail of the first: an average of 57 shown with `N = 3` reads "53" (`Text.SharedBufferExample`).

## Model

| member | source | states |
|---|---|---|
| Serial.DecodeDigit | Demo/CORTEX_LM3S811_GCC/main.c:184-191 | a received word yields a window size exactly when it is an ASCII digit (48..57) |
| Serial.DigitFor | Demo/CORTEX_LM3S811_GCC/main.c:184-190 | every window size 1..10 has a digit ('0' for 10) that decodes to it |
| Serial.DecodeDigitExact | Demo/CORTEX_LM3S811_GCC/main.c:184-190 | a word decodes to window n if and only if it is the digit for n: '0' gives 10, '1'..'9' give 1..9 |
| Serial.TxStep | Demo/CORTEX_LM3S811_GCC/main.c:165-176 | one transmit interrupt moves the cursor by exactly one on a non-NUL byte and not at all on NUL; it appends at most that byte, never a NUL, and keeps what was sent |
| Serial.Drain | Demo/CORTEX_LM3S811_GCC/main.c:165-176 | a run of transmit interrupts never moves the cursor backwards and never past the terminator |
| Serial.Session | Demo/CORTEX_LM3S811_GCC/main.c:494-508 | to_terminal followed by transmit interrupts leaves the cursor past s[0] and still before a terminator |
| Serial.DrainSendsSubsequence | Demo/CORTEX_LM3S811_GCC/main.c:165-176 | whatever the FIFO flags, interrupts append an in-order subsequence of the string under the cursor and stop at its terminator |
| Serial.DrainSendsAll | Demo/CORTEX_LM3S811_GCC/main.c:165-176 | with the FIFO never full and enough interrupts, exactly the string under the cursor is sent and the cursor rests on its terminator |
| Serial.DrainAtTerminator | Demo/CORTEX_LM3S811_GCC/main.c:168-175 | with the cursor on NUL, interrupts change nothing |
| Serial.SessionSendsSubsequence | Demo/CORTEX_LM3S811_GCC/main.c:494-508 | for a non-empty message, to_terminal plus interrupts send an in-order subsequence of the message, never its NUL |
| Serial.SessionSendsMessage | Demo/CORTEX_LM3S811_GCC/main.c:494-508 | for a non-empty message and a FIFO never full, the whole message is sent, in order, without its NUL |
| Serial.EmptyMessageSendsStaleTail | Demo/CORTEX_LM3S811_GCC/main.c:497-504 | as written, an empty message sends a NUL byte followed by the C string that follows it in memory |
| Serial.EmptyReportLeaksOldText | Demo/CORTEX_LM3S811_GCC/main.c:494-508 | concrete instance: the buffer [NUL,'o','k',NUL] puts NUL,'o','k' on the line |
| Serial.StartSendingGuarded | Demo/CORTEX_LM3S811_GCC/main.c:494-508 | corrected start: the cursor never steps past the message's first terminator, and at most one byte is sent, never a NUL |
| Serial.GuardedSessionSendsMessage | Demo/CORTEX_LM3S811_GCC/main.c:494-508 | with the corrected start, every message, empty or not, is sent exactly when the FIFO is never full |
| Serial.SerialLine.constructor | Demo/CORTEX_LM3S811_GCC/main.c:74 | the UART state starts idle: nothing sent, nothing queued, the cursor on a terminator |
| Serial.SerialLine.ToTerminal | Demo/CORTEX_LM3S811_GCC/main.c:494-508 | to_terminal on the UART state: message and cursor set, first byte sent unless full, cursor advanced, receive queue untouched |
| Serial.SerialLine.ToTerminalGuarded | Demo/CORTEX_LM3S811_GCC/main.c:494-508 | the corrected to_terminal on the UART state, agreeing with StartSendingGuarded |
| Serial.SerialLine.TxInterrupt | Demo/CORTEX_LM3S811_GCC/main.c:165-176 | the transmit branch updates cursor and output exactly as TxStep and keeps the cursor before a terminator |
| Serial.SerialLine.RxInterrupt | Demo/CORTEX_LM3S811_GCC/main.c:181-193 | the receive branch queues the decoded window size for a digit and nothing otherwise, leaving the transmit state alone |
| Serial.SerialLine.UartIsr | Demo/CORTEX_LM3S811_GCC/main.c:152-194 | vUART_ISR runs the transmit branch then the receive branch, each only when its interrupt is pending |
| Sensor.After | Demo/CORTEX_LM3S811_GCC/main.c:218-235 | after k iterations the temperature is within k of its start value 1 |
| Sensor.Next | Demo/CORTEX_LM3S811_GCC/main.c:220-235 | every loop iteration moves the temperature by exactly one |
| Sensor.ClosedFormStep | Demo/CORTEX_LM3S811_GCC/main.c:220-235 | one iteration moves the closed-form triangle wave from cycle k to cycle k + 1 |
| Sensor.AfterClosedForm | Demo/CORTEX_LM3S811_GCC/main.c:212-235 | after k iterations from temp = 1 descending, the state is the closed-form triangle: 0..127 over the first 128 samples, then period 222 between 127 and 16 |
| Sensor.SampleBounds | Demo/CORTEX_LM3S811_GCC/main.c:212-235 | every sample lies in [0, 127], and from the 128th on in [16, 127] |
| Sensor.TurnsAtBounds | Demo/CORTEX_LM3S811_GCC/main.c:220-235 | the direction turns down only on reaching 127 and up only on reaching 16 (apart from the first step to 0) |
| Sensor.ConsecutiveSamples | Demo/CORTEX_LM3S811_GCC/main.c:220-235 | consecutive samples differ by exactly one |
| Sensor.SensorTask.constructor | Demo/CORTEX_LM3S811_GCC/main.c:212-213 | the task starts at temp = 1, descending |
| Sensor.SensorTask.Step | Demo/CORTEX_LM3S811_GCC/main.c:218-238 | one loop iteration returns the next sample of the closed form; it is within one of the last and within the bounds |
| Filter.Shift | Demo/CORTEX_LM3S811_GCC/main.c:271-279 | the new sample is at index 0, indices 1..N-1 hold the old 0..N-2, indices N..9 are unchanged |
| Filter.Average | Demo/CORTEX_LM3S811_GCC/main.c:281-285 | the output is the truncated mean of the 32-bit sum: avg * N <= sum < avg * N + N |
| Filter.AverageOfBoundedSamples | Demo/CORTEX_LM3S811_GCC/main.c:281-285 | with samples at most 127 the 32-bit sum cannot wrap, the result is the true truncated mean, and it is at most 127 |
| Filter.StepOutputBounded | Demo/CORTEX_LM3S811_GCC/main.c:271-285 | one step with a sample of at most 127 keeps every history entry and the average at most 127 |
| Filter.FeedWindow | Demo/CORTEX_LM3S811_GCC/main.c:271-279 | after a run of samples the window holds them newest first, followed by the older window |
| Filter.LatestWindow | Demo/CORTEX_LM3S811_GCC/main.c:271-279 | after at least N samples with window N, the window is exactly the last N samples, newest first |
| Filter.WindowAverage | Demo/CORTEX_LM3S811_GCC/main.c:271-285 | after at least N samples, the output is the truncated mean (mod 2^32) of the last N samples |
| Filter.ReferenceScenario | Demo/CORTEX_LM3S811_GCC/main.c:264-285 | samples 10, 20, 30 with N = 3 average to 20 whatever the history held |
| Filter.FilterTask.constructor | Demo/CORTEX_LM3S811_GCC/main.c:251-256 | array and aux start zeroed and N starts at 1 |
| Filter.FilterTask.Step | Demo/CORTEX_LM3S811_GCC/main.c:264-285 | a polled window size replaces N; the history is shifted by Shift, aux holds the old window, the result is Average of the new history |
| Filter.CopyPrefix | Demo/CORTEX_LM3S811_GCC/main.c:271-274 | aux[0..N) becomes array[0..N), the rest of aux is unchanged |
| Filter.ShiftIn | Demo/CORTEX_LM3S811_GCC/main.c:275-279 | the second loop and the store of the sample produce exactly Shift of the old history |
| Filter.WindowSum | Demo/CORTEX_LM3S811_GCC/main.c:281-284 | the accumulator ends as the sum of array[0..N) modulo 2^32 |
| Grafic.BarLevel | Demo/CORTEX_LM3S811_GCC/main.c:317 | the level is at most 31, and for averages below 256 it is the average's eighth, rounded down |
| Grafic.EncodeBar | Demo/CORTEX_LM3S811_GCC/main.c:319-328 | below level 8 the upper cell is dark and the lower cell's top pixel is dark; from 8 on the lower cell is full and the upper cell's bottom pixel is lit from level 9 |
| Grafic.HighMaskBits | Demo/CORTEX_LM3S811_GCC/main.c:321-326 | the reference mask with k bits sets exactly the top k bits: a contiguous run from the bottom pixel |
| Grafic.PopCountHighMask | Demo/CORTEX_LM3S811_GCC/main.c:321-326 | the reference mask with k bits lights k pixels |
| Grafic.EncodeBarShape | Demo/CORTEX_LM3S811_GCC/main.c:319-328 | below 8, the upper cell is 0 and the lower is a contiguous mask of max(level - 1, 0) bits; from 8 on, the lower cell is 0xFF and the upper a contiguous mask of level - 8 bits |
| Grafic.LitPixels | Demo/CORTEX_LM3S811_GCC/main.c:319-328 | a level lights 0 pixels for 0 and 1, level - 1 below 8, and level from 8 to 16 |
| Grafic.LitMonotone | Demo/CORTEX_LM3S811_GCC/main.c:319-328 | the number of lit pixels never falls as the level rises |
| Grafic.EncodeBarMonotone | Demo/CORTEX_LM3S811_GCC/main.c:319-328 | every pixel a lower level lights is lit by any higher level |
| Grafic.FilterRangeLevels | Demo/CORTEX_LM3S811_GCC/main.c:317-328 | averages up to 127 give levels up to 15; the top averages give level 15, lighting 15 of 16 pixels |
| Grafic.Scrolled | Demo/CORTEX_LM3S811_GCC/main.c:319-336 | after a refresh each row moves one cell towards 0; cells 62, 63 hold the new top byte and 126, 127 the new bottom byte |
| Grafic.RecentColumns | Demo/CORTEX_LM3S811_GCC/main.c:319-336 | after any run of refreshes, cells 62 - j and 126 - j hold the column stored j refreshes ago, for the last 63 refreshes |
| Grafic.ShiftRows | Demo/CORTEX_LM3S811_GCC/main.c:330-336 | the scroll loop sets pixel[i] to the old pixel[i + 1] for every i except 63 and 127, which keep their values |
| Grafic.GraficTask.constructor | Demo/CORTEX_LM3S811_GCC/main.c:300 | the image starts all dark, and the task uses the given itoa buffer |
| Grafic.GraficTask.Refresh | Demo/CORTEX_LM3S811_GCC/main.c:312-336 | one refresh leaves itoa's buffer with both texts written in turn and the image as Scrolled by the encoded bar of the average |
| Text.DigitValueOfChar | Demo/CORTEX_LM3S811_GCC/main.c:478-483 | every digit written ('0'..'9', 'A'..'F') reads back as its value |
| Text.BaseDigits | Demo/CORTEX_LM3S811_GCC/main.c:444-446 | the digit string of v is empty exactly when v is 0 |
| Text.Numeral | Demo/CORTEX_LM3S811_GCC/main.c:462-485 | the text longToChar writes is never empty, and a value below the base is the single digit for it ("0" for 0) |
| Text.BaseDigitsWellFormed | Demo/CORTEX_LM3S811_GCC/main.c:475-485 | every character is a base-b digit and the first is not '0' |
| Text.NumeralWellFormed | Demo/CORTEX_LM3S811_GCC/main.c:475-485 | every character longToChar writes is a base-b digit |
| Text.ParseBaseDigits | Demo/CORTEX_LM3S811_GCC/main.c:475-485 | reading the base-b digits back yields the number |
| Text.ParseNumeral | Demo/CORTEX_LM3S811_GCC/main.c:452-488 | the text longToChar writes, "0" included, parses back to the value |
| Text.BaseDigitsOfParse | Demo/CORTEX_LM3S811_GCC/main.c:475-485 | every digit string without a leading zero is the digit string of its own value |
| Text.IntDigitCount | Demo/CORTEX_LM3S811_GCC/main.c:438-446 | a 32-bit value has at most 10 decimal digits, so the text fits well within itoa's buffer |
| Text.Written | Demo/CORTEX_LM3S811_GCC/main.c:438-449 | itoa's buffer keeps its length and its final terminator cell |
| Text.SharedBufferText | Demo/CORTEX_LM3S811_GCC/main.c:313-315 | after a second itoa call, the first call's pointer shows a string of the first call's length ending in the second call's digits |
| Text.SharedBufferExample | Demo/CORTEX_LM3S811_GCC/main.c:313-315 | an average of 57 shown next to N = 3 reads "53" |
| Text.ItoaZero | Demo/CORTEX_LM3S811_GCC/main.c:444-448 | itoa(0) returns the empty string and changes nothing |
| Text.DigitBuffer.constructor | Demo/CORTEX_LM3S811_GCC/main.c:440 | itoa's static 32-byte buffer starts all zero |
| Text.DigitBuffer.Itoa | Demo/CORTEX_LM3S811_GCC/main.c:438-449 | itoa stores the decimal digits of val ending just before the last cell, changes nothing else, and returns where they start |
| Text.NumeralLast | Demo/CORTEX_LM3S811_GCC/main.c:477 | res = value - base * (value / base) is the last digit, and the text of value is the text of value / base followed by it |
| Text.CountDigits | Demo/CORTEX_LM3S811_GCC/main.c:462-469 | the first loop counts exactly the characters of the text, one for 0 |
| Text.WriteDigits | Demo/CORTEX_LM3S811_GCC/main.c:475-485 | the second loop writes the text backwards from the terminator and ends on the start position, leaving other cells alone |
| Text.LongToChar | Demo/CORTEX_LM3S811_GCC/main.c:452-488 | null gives null; otherwise the base-b text, NUL-terminated, is stored at the pointer, which is returned, and nothing outside is touched |
| Stats.TaskLine | Demo/CORTEX_LM3S811_GCC/main.c:413-416 | a row starts with the task's name followed by a tab |
| Stats.LinesAppend | Demo/CORTEX_LM3S811_GCC/main.c:406-428 | the rows of the snapshot grow by exactly one task's row per task, in snapshot order |
| Stats.Report | Demo/CORTEX_LM3S811_GCC/main.c:391-425 | a non-empty report starts with the three header lines |
| Stats.ParseTaskLine | Demo/CORTEX_LM3S811_GCC/main.c:413-416 | one row reads back as the task's name and counter |
| Stats.ParseLinesOfLines | Demo/CORTEX_LM3S811_GCC/main.c:406-428 | the rows read back as the snapshot's tasks, in order |
| Stats.ReportRoundTrip | Demo/CORTEX_LM3S811_GCC/main.c:391-428 | a non-empty report is the header followed by exactly the snapshot's names and counters, in order |
| Stats.ReportEmpty | Demo/CORTEX_LM3S811_GCC/main.c:381-399 | the report is empty if and only if the allocation failed or the total run time is below 100 |
| Stats.StrLen | Demo/CORTEX_LM3S811_GCC/main.c:427 | strlen returns the length of the C string at the pointer |
| Stats.StrCat | Demo/CORTEX_LM3S811_GCC/main.c:401-403 | strcat leaves the concatenation as the C string at the destination; nothing before it and nothing after its new terminator changes |
| Stats.CopyUntilNul | Demo/CORTEX_LM3S811_GCC/main.c:413 | strcat's copy loop stores exactly the source's characters up to its terminator and touches nothing else |
| Stats.WriteHeader | Demo/CORTEX_LM3S811_GCC/main.c:401-403 | the emptied buffer holds the three header lines, and nothing after their terminator changes |
| Stats.AppendRow | Demo/CORTEX_LM3S811_GCC/main.c:413-416 | the four strcat calls of a row extend the buffer's text by exactly that task's row, and nothing after the new terminator changes |
| Stats.WriteRow | Demo/CORTEX_LM3S811_GCC/main.c:410-427 | one round writes the task's row whichever branch the percentage takes, and moves the write pointer to the end of the text |
| Stats.WriteRows | Demo/CORTEX_LM3S811_GCC/main.c:406-428 | the loop appends one row per task in snapshot order, whichever branch is taken, and nothing after the final terminator changes |
| Stats.DecimalText | Demo/CORTEX_LM3S811_GCC/main.c:378-415 | a 32-bit counter's text fits the 16-character aux and holds no NUL, tab or newline |
| Stats.RunTimeStats | Demo/CORTEX_LM3S811_GCC/main.c:374-433 | the buffer ends holding exactly Report: empty on a failed allocation or a total below 100, else header and rows; every byte after the report's terminator keeps its old value (so an empty report leaves the old text from index 1 on) |

## Left out

- Hardware bring-up, `main`'s task and queue creation, the LCD drawing calls, `intToString`, `uartPrint` and the commented-out stack-watermark code are not modelled. They are peripheral and scheduler calls, or unused code.
- Queues, blocking and delays are not modelled. The queue poll of the filter task is the `polled` argument of `Filter.FilterTask.Step`. A received average is the argument of `Grafic.GraficTask.Refresh`. Window sizes queued by the receive interrupt are the `control` log of `Serial.SerialLine`. The scheduler's snapshot (tasks, total, allocation outcome) is the input of `Stats.RunTimeStats`.
- Concurrency is not modelled:
  - the interrupt sends to a queue with an infinite wait;
  - both the filter task and the graphic task reset the global `N` to 1 on start;
  - `pcMessage` is refilled while the transmit interrupt may still be draining it.

  Every operation is modelled as one uninterrupted step.
- Serial.SerialLine.ToTerminal: requires a terminator after `s[0]`. The source reads on past the end of the buffer otherwise; that read is not modelled.
- Serial.SerialLine.constructor: starts on an empty string. The source's `pcNextChar` is null until the first `to_terminal`, but the transmit interrupt is not enabled before that.
- Text.DigitBuffer.Itoa: requires `0 <= val < 2^31`. A negative argument indexes the digit table out of range.
- Text.LongToChar: requires room for the digits and the terminator after the pointer. The source does not check it.
- Stats.RunTimeStats: requires the report to fit the buffer. The 150-byte `pcMessage` can overflow with many tasks, and that overflow is not modelled. The task name must contain no NUL, because it is a C string.
- Grafic.GraficTask.Refresh: requires a level (`(uint8_t)avg / 8`) of at most 16. Larger levels shift by a negative count, which is undefined in C. The filter's outputs never get there.
- Filter.FilterTask.Step: requires a sample below 2^32. It is an `unsigned int` in the source.
- The display's text drawing is not modelled: the texts are the itoa buffer contents and start indices that `Grafic.GraficTask.Refresh` returns.

## Findings

| source | as written | input that shows it | evidently intended | confidence | as-written member | corrected member |
|---|---|---|---|---|---|---|
| Demo/CORTEX_LM3S811_GCC/main.c:497-504 | `to_terminal` writes `s[0]` and advances past it without checking for the terminator, so an empty string (the report buffer when the total run time is below 100 ticks) puts a NUL byte on the line and the interrupts go on to send whatever C string follows in the buffer | buffer `[NUL, 'o', 'k', NUL]`, FIFO never full: the line receives NUL, 'o', 'k' | an empty string sends nothing; every message is sent exactly up to its terminator | not executed; high | Serial.EmptyMessageSendsStaleTail | Serial.GuardedSessionSendsMessage |
