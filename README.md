# Countdown timer

A model of the page countdown in `script.js`. When the page has loaded,
`startCountdown` sets a counter to 900 seconds (15 minutes). It looks up the
element with id `timer`, which may be missing. It then registers a callback
that the host runs once a second. Each run of the callback does four things:

- it splits the counter into minutes and seconds;
- it pads each part with a leading `0` when it is below 10;
- it writes `MM:SS` to the element, if there is one;
- it clears the interval when the counter is at or below 0, and otherwise counts down by one.

The project has two modules:

- `ClockText` (`clock_text.dfy`) holds the pure part of the callback. `Pad2` and `Format` build the `MM:SS` text. `DecimalString` is JavaScript's number-to-text conversion for integers below 10^21, where that conversion is plain decimal; the countdown only converts 0..59. `Parse` is an independent reader of that text. The lemmas prove that the text reads back as the time it was made from. They also prove that it has the fixed `DD:DD` shape exactly when the time is below 100 minutes.
- `Countdown` (`countdown.dfy`) holds the closed-over state as the class `Countdown`. Its fields are `time`, `hasDisplay`, `stopped` (the interval has been cleared) and `rendered` (the texts written to the element, oldest first). The ghost field `ticks` counts the callbacks that ran while the interval was live. `Valid()` pins down every reachable state. `Tick` is one run of the callback, and `Run` stands for the host calling it until the interval is cleared.

Each callback renders the value it sees before counting down. So the display
shows `15:00`, `14:59`, …, `00:01`, `00:00`. That is 901 texts from 901
callbacks: the callback that sees 0 still writes `00:00`, then clears the
interval. Without a display nothing is written, but the same 901 callbacks run.

## Model

| member | source | states |
|---|---|---|
| `ClockText.DecimalString` | script.js:9-13 | JavaScript's number-to-text for the minutes and seconds. Its own contract says only that the text is non-empty and has at most 2 characters below 100. `DecimalDigits` and `DecimalRoundTrip` state that it is all digits, its exact length, and that it reads back as the number. |
| `ClockText.Pad2` | script.js:9-10 | The `x < 10 ? "0" + x : x` step. Its own contract says the result has at least 2 characters, and exactly 2 below 100. `Pad2Value` states its value, its digits and the length iff. |
| `ClockText.Format` | script.js:6-13 | The `MM:SS` text for `t` seconds. Its own contract says the text has at least 5 characters with a colon three places from the end. `FormatRoundTrip`, `FormatInjective` and `FormatShape` state its meaning: minutes `t / 60`, seconds `t % 60`, injective, and `DD:DD` iff `t < 6000`. |
| `ClockText.DecimalDigits` | script.js:9-13 | Number-to-text of a non-negative integer gives only digits. The text has one digit exactly for values below 10 and two digits exactly for 10..99. |
| `ClockText.Parse` | script.js:13 | Reader for `<minutes>:<two-digit seconds>` text. An accepted text has at least 5 characters and a colon three places from the end. The parts on both sides of that colon are all digits, and the seconds are below 60. Any other text is refused. |
| `ClockText.DecimalRoundTrip` | script.js:9-10 | The decimal text of `n` reads back as `n`. |
| `ClockText.LeadingZero` | script.js:9-10 | Prefixing `"0"` keeps a digit string all digits and keeps its value. |
| `ClockText.Pad2Value` | script.js:9-10 | The padded part is all digits, denotes the original value, and is at least 2 characters long. It is exactly 2 characters iff the value is below 100, because padding never truncates. |
| `ClockText.FormatRoundTrip` | script.js:6-13 | Reading the text for `t` gives minutes `t / 60` and seconds `t % 60`. So the seconds are below 60 and `60 * MM + SS == t`, for every `t`. |
| `ClockText.FormatInjective` | script.js:6-13 | Two different times never show the same text. |
| `ClockText.FormatShape` | script.js:9-13 | The text is exactly `DD:DD` (5 characters, digits around a colon) iff `t < 6000`. This covers the whole 0..900 range the counter uses. |
| `Countdown.RenderLogSnoc` | script.js:12-19 | Each live callback appends the text of the value it saw, before the decrement. |
| `Countdown.FullRunAt` | script.js:2-13 | The `k`-th text of a whole run is in `DD:DD` shape and reads back as `900 - k` seconds. |
| `Countdown.FullRunRenders` | script.js:2-20 | A whole run writes 901 texts. The first is `15:00`, the last is `00:00`, and every text is in `DD:DD` shape. The `k`-th text reads back as `900 - k`, so each text is one second below the one before it. |
| `Countdown.RenderMilestones` | script.js:2-19 | The 2nd, 61st and 900th texts are `14:59`, `14:00` and `00:01`. |
| `Countdown.Countdown.constructor` | script.js:2-5 | The countdown starts running at 900 with nothing rendered. The display's presence is fixed at start. |
| `Countdown.Countdown.Tick` | script.js:6-20 | See the Tick notes below the table. |
| `Countdown.Countdown.Run` | script.js:5-21 | Calling the callback until the interval is cleared takes `time + 1` calls from a running state. It ends stopped at 0 with the whole run's texts rendered, or none without a display. |
| `Countdown.StartAndRun` | script.js:1-24 | From page load, exactly 901 callbacks run before the interval is cleared. The display shows `15:00` first and `00:00` last, or shows nothing when the element is missing. |

What `Countdown.Countdown.Tick` states:

- It keeps the invariant that the counter stays within 0..900.
- With `time > 0`, it decrements `time` by exactly 1 and keeps running.
- With `time <= 0`, it stops and leaves `time` unchanged.
- Once stopped, nothing changes.
- A live tick appends `Format(old time)` when there is a display, and nothing otherwise.

## Left out

- DOM access (`document.getElementById`, `display.textContent`): the element is the flag `hasDisplay`. Its text is the log `rendered`, whose last entry is what the element shows.
- Timer scheduling (`setInterval`, `clearInterval`, the 1000 ms cadence): a tick is an explicit call of `Tick`, and clearing the interval sets `stopped`. Wall-clock time is not modelled.
- The `DOMContentLoaded` hook: it is modelled as constructing one `Countdown`.
- Calling `startCountdown` twice: the two overlapping tickers it creates are event-loop concurrency, and the source leaves that undefined.
- An element that appears after the lookup: the source looks it up once, so `hasDisplay` is a constant.
- `ClockText.DecimalString` does not model JavaScript's exponent form for numbers of 10^21 and more, nor inexact integers above 2^53. The countdown only converts 0..59.
- JavaScript's dynamic typing in the padding lines, where `minutes` and `seconds` switch between number and string: both are modelled as the strings `Pad2` returns. Number-to-text is modelled only for non-negative integers, the only values that reach it.
- `Countdown.Countdown.Tick`: once stopped, a call is a no-op. In the page the host never calls the callback again after `clearInterval`.
