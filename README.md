# Portfolio page animations in Dafny

The portfolio is a single scrolling page of static content. Three small pieces
of it carry real logic, and this project models those three and proves what
they promise:

- **Typewriter** (`typewriter.dfy`, module `Typewriter`): the hero section's
  `useTypewriter` hook. Its three state cells (`text`, `wordIndex`,
  `isDeleting`) are fields of the class `Hook`. The per-character timeout and
  the pause timeout are the methods `Tick` and `PauseElapsed`. Each method is
  proved against a step function on a `State` datatype (`OnTick`, `OnPause`).
  The properties are proved about those functions: the text is always a prefix
  of the current word, typing adds one character, a word of length L is typed
  in L ticks and deleted in L + 1, and the words come round in list order. The
  timeout that the completing tick arms is never cleared. The model keeps it
  as the flag `pausePending`.
- **Name split** (`name_split.dfy`, module `NameSplit`): the hero heading
  splits the display name at single spaces. It shows the first piece, then the
  other pieces joined back with spaces. `Split` and `Join` follow JavaScript's
  `split(" ")` and `join(" ")`, and the lemmas give the round trips in both
  directions.
- **Section slug** (`section_slug.dfy`, module `SectionSlug`): a section
  heading's test id lower-cases the title and turns every run of whitespace
  into one hyphen. It is modelled as pure functions. The lemmas prove: no
  whitespace and no capitals in the result, idempotence, the exact length, the
  hyphen count, and that the other characters keep their order.
- **Animated counter** (`animated_counter.dfy`, module `AnimatedCounter`): the
  statistics counter. Its state is the class `Counter`, and its events are
  `EnterView` and `Tick`. `RunInterval` is the interval as a loop that runs
  until the interval clears itself. The accumulator uses exact `real`
  arithmetic. The lemmas prove four things: the count never passes the target
  and never goes down; nothing happens before the element is in view; a
  positive target is reached after exactly ceil(duration * 60) firings; and a
  zero target stops on the first firing.

Timers are discrete events. A method call is one firing of a callback.

## Model

| member | source | states |
|---|---|---|
| Typewriter.Substring | client/src/components/portfolio/hero.tsx:22-27 | The result is a prefix of the word. Its length is the end index clamped into the range from 0 to the word's length. |
| Typewriter.OnTick | client/src/components/portfolio/hero.tsx:17-35 | One tick keeps the index in range and keeps the state valid: the text is a prefix of the current word, and a pending pause means the word is complete. A tick never turns deletion on. Typing a partial word appends the word's next character and arms the pause exactly when the word becomes complete. Typing a complete word changes nothing. Deleting a non-empty text drops its last character. Deleting an empty text stops deleting and moves to (wordIndex + 1) mod the list length. |
| Typewriter.OnPause | client/src/components/portfolio/hero.tsx:23-25 | The pause event turns deletion on exactly when a pause is pending. It leaves the text and the index alone and keeps the state valid. |
| Typewriter.TickDelay | client/src/components/portfolio/hero.tsx:34 | The delay while deleting is half the typing speed. While typing it is the speed. |
| Typewriter.TicksValid | client/src/components/portfolio/hero.tsx:18-31 | Any number of ticks keeps the text a prefix of the current word and the index in range. |
| Typewriter.TypingFrom | client/src/components/portfolio/hero.tsx:21-25 | From the first j characters, k typing ticks show the first j + k characters. The pause is armed exactly when a tick completes the word. |
| Typewriter.DeletingFrom | client/src/components/portfolio/hero.tsx:26-27 | From the first j characters, k <= j deleting ticks show the first j - k characters, and deletion goes on. |
| Typewriter.TypeWord | client/src/components/portfolio/hero.tsx:21-25 | A word of length L is fully shown after L ticks. The pause is then pending if the word is non-empty. |
| Typewriter.DeleteWord | client/src/components/portfolio/hero.tsx:26-31 | Deleting a word of length L takes exactly L + 1 ticks. After L ticks the text is empty and still deleting. The next tick starts typing the next word of the list. |
| Typewriter.CycleAdvances | client/src/components/portfolio/hero.tsx:21-31 | Type, pause, delete: a full cycle on a non-empty word ends at the start of the next word, cyclically. |
| Typewriter.EmptyWordStalls | client/src/components/portfolio/hero.tsx:22-23 | On an empty word no tick arms the pause, so the state never changes again. |
| Typewriter.CyclesInOrder | client/src/components/portfolio/hero.tsx:30 | When every word is non-empty, the m-th cycle starts on word m mod the list length: the words are shown in list order, round and round. |
| Typewriter.RolesCycle | client/src/lib/portfolio-data.ts:12 | With the page's three roles, the second cycle starts on the second role, and three cycles return to the initial state. |
| Typewriter.Hook.constructor | client/src/components/portfolio/hero.tsx:12-15 | The hook starts with empty text, the first word, not deleting and no pause pending. |
| Typewriter.Hook.Delay | client/src/components/portfolio/hero.tsx:34 | The scheduled delay is half the speed while deleting and the speed otherwise. |
| Typewriter.Hook.Tick | client/src/components/portfolio/hero.tsx:17-35 | Updating the cells in place gives exactly the state `OnTick` describes and keeps the state valid. |
| Typewriter.Hook.PauseElapsed | client/src/components/portfolio/hero.tsx:24 | Updating the cells in place gives exactly the state `OnPause` describes and keeps the state valid. |
| Typewriter.HeroStart | client/src/components/portfolio/hero.tsx:56 | With the hero's roles, speed 80 and pause 2500, two ticks show "Da". |
| NameSplit.Split | client/src/components/portfolio/hero.tsx:110 | Splitting at single spaces gives one piece more than there are spaces, and no piece contains a space. |
| NameSplit.Join | client/src/components/portfolio/hero.tsx:118 | Joining with spaces starts with the first piece, and when there is more than one piece a space follows it. |
| NameSplit.JoinSplit | client/src/components/portfolio/hero.tsx:118 | Joining the pieces of a split with spaces gives the original string. |
| NameSplit.SplitJoin | client/src/components/portfolio/hero.tsx:118 | Splitting a join of space-free pieces gives the pieces back. |
| NameSplit.FirstName | client/src/components/portfolio/hero.tsx:110 | The first part has no space. It is a prefix of the name that ends at the first space or at the end of the name. |
| NameSplit.RestOfName | client/src/components/portfolio/hero.tsx:118 | A name with a space is the first part, a space, and the rest. A name without a space has an empty rest. |
| NameSplit.NameParts | client/src/components/portfolio/hero.tsx:110-118 | A name with a space is its first piece, a space, and the other pieces joined with spaces. A name without a space splits into itself alone. |
| NameSplit.FirstSpaceDecides | client/src/components/portfolio/hero.tsx:110-118 | For a first word a without spaces, the parts of a + " " + b are exactly a and b. |
| NameSplit.Heading | client/src/components/portfolio/hero.tsx:105-119 | The heading shows the whole name when it has a space. Otherwise it shows the name followed by a space. |
| NameSplit.PortfolioName | client/src/lib/portfolio-data.ts:2 | "Mohan Narasimha" is shown as "Mohan" and "Narasimha", and the heading reads the full name. |
| SectionSlug.Lower | client/src/components/portfolio/section-header.tsx:26 | Lower-casing a character gives no capital. A capital A-Z becomes the small letter at the same place in the alphabet. Whitespace, hyphens and ASCII stay as they are, and nothing that is not a capital changes. |
| SectionSlug.ToLower | client/src/components/portfolio/section-header.tsx:26 | Lower-casing a title keeps its length and lower-cases it character by character, each as `Lower` states. |
| SectionSlug.Collapse | client/src/components/portfolio/section-header.tsx:26 | After the whitespace-run replacement no character is whitespace. Every character is a hyphen or a character of the input. |
| SectionSlug.Slug | client/src/components/portfolio/section-header.tsx:26 | The slug is ASCII and contains no whitespace and no capital letter. |
| SectionSlug.SlugIdempotent | client/src/components/portfolio/section-header.tsx:26 | Applying the slug to a slug returns it unchanged. |
| SectionSlug.CollapseCounts | client/src/components/portfolio/section-header.tsx:26 | Each run of n whitespace characters loses n - 1 characters and becomes one more hyphen. The characters that are neither whitespace nor hyphens keep their order. Where each hyphen lands is stated by `CollapseByChar`. |
| SectionSlug.SlugLength | client/src/components/portfolio/section-header.tsx:26 | The slug's length is the title's length minus the whitespace count plus the number of runs. So it is never longer than the title. |
| SectionSlug.SlugContents | client/src/components/portfolio/section-header.tsx:26 | The slug's hyphens are the title's hyphens plus one per whitespace run. Its other characters are the title's other non-whitespace characters, lower-cased and in order. |
| SectionSlug.ContactSlug | client/src/components/portfolio/contact.tsx:78 | "Get in Touch" gives "get-in-touch". |
| SectionSlug.CollapseRun | client/src/components/portfolio/section-header.tsx:26 | A whole whitespace run of any length becomes one hyphen in its place, when it is followed by a non-whitespace character or by the end. |
| SectionSlug.CollapseWord | client/src/components/portfolio/section-header.tsx:26 | A whitespace-free stretch, hyphens included, passes through the replacement unchanged and in place. |
| SectionSlug.CollapseByChar | client/src/components/portfolio/section-header.tsx:26 | The replacement equals a character-by-character rewrite on every input. A non-whitespace character is kept. A whitespace character that starts a run becomes '-'. Any other whitespace character is dropped. |
| SectionSlug.SlugByChar | client/src/components/portfolio/section-header.tsx:26 | The slug is the lower-cased title rewritten one character at a time in that way. |
| SectionSlug.CollapseDoubleSpace | client/src/components/portfolio/section-header.tsx:26 | "a  b-c" collapses to "a-b-c": a two-space run gives one hyphen in its place, and the title's own hyphen stays. |
| AnimatedCounter.Increment | client/src/components/portfolio/animated-counter.tsx:26 | duration * 60 steps of the increment add up to the target, and the step is non-negative for a non-negative target. |
| AnimatedCounter.OnView | client/src/components/portfolio/animated-counter.tsx:20-27 | Entering the view starts the interval with the accumulator at 0, only the first time. It keeps the state valid for every target. |
| AnimatedCounter.OnTick | client/src/components/portfolio/animated-counter.tsx:27-35 | Without a running interval nothing changes. A firing adds the increment. The interval stops exactly when the accumulator reaches the target, and then the target is shown. While it runs, the display is the floor of the accumulator and never passes the target. The firing keeps the state valid. |
| AnimatedCounter.NothingBeforeView | client/src/components/portfolio/animated-counter.tsx:21-24 | Before the element is in view, firings leave the counter at its initial 0. |
| AnimatedCounter.CountBounded | client/src/components/portfolio/animated-counter.tsx:28-33 | For a non-negative target the displayed count never exceeds the target. |
| AnimatedCounter.CountMonotone | client/src/components/portfolio/animated-counter.tsx:26-33 | For a non-negative target and step, a firing never lowers the displayed count. |
| AnimatedCounter.TicksBelow | client/src/components/portfolio/animated-counter.tsx:28-33 | While k increments stay below the target, the interval runs and shows the floor of the accumulated value. |
| AnimatedCounter.RunsBelowTarget | client/src/components/portfolio/animated-counter.tsx:28-33 | In exact arithmetic, before ceil(duration * 60) firings a positive target's counter still runs and shows less than the target. |
| AnimatedCounter.StopsAtTarget | client/src/components/portfolio/animated-counter.tsx:29-31 | In exact arithmetic, at ceil(duration * 60) firings the counter of a positive target shows the target and has stopped. |
| AnimatedCounter.ReachesTarget | client/src/components/portfolio/animated-counter.tsx:26-33 | In exact arithmetic, a positive target is reached after exactly ceil(duration * 60) firings: the counter runs below the target before that, then stops on the target. |
| AnimatedCounter.ZeroTarget | client/src/components/portfolio/animated-counter.tsx:28-31 | A zero target stops on the first firing and shows 0. |
| AnimatedCounter.StoppedFromCeil | client/src/components/portfolio/animated-counter.tsx:29-31 | In exact arithmetic, for a non-negative target, from ceil(duration * 60) firings on the interval has stopped and the target is shown. |
| AnimatedCounter.StaysStopped | client/src/components/portfolio/animated-counter.tsx:31 | Once the interval is cleared, later firings change nothing. |
| AnimatedCounter.Counter.constructor | client/src/components/portfolio/animated-counter.tsx:12-21 | The counter starts out of view, shows 0 and has no interval. |
| AnimatedCounter.Counter.EnterView | client/src/components/portfolio/animated-counter.tsx:23-27 | Updating the fields in place gives exactly the state `OnView` describes and keeps the state valid. |
| AnimatedCounter.Counter.Tick | client/src/components/portfolio/animated-counter.tsx:27-34 | Updating the fields in place gives exactly the state `OnTick` describes and keeps the state valid. |
| AnimatedCounter.Counter.RunInterval | client/src/components/portfolio/animated-counter.tsx:27-35 | In exact arithmetic, for a non-negative target, the interval loop started on entering the view ends with the target shown and the interval stopped. It makes at most ceil(duration * 60) firings. |
| AnimatedCounter.HeroCounters | client/src/components/portfolio/hero.tsx:194-196 | In exact arithmetic, at the default duration the hero's counters for 4, 6 and 15 reach their targets after 120 firings. |

## Left out

- Floating particle canvas (`floating-particles.tsx`): floating-point physics, random initial state, canvas drawing and animation-frame scheduling.
- Contact form (`contact.tsx`): the validation rules belong to a schema library, and submission is an HTTP request with toast notifications.
- Header (`header.tsx`): scroll listener, theme toggle and download link are event plumbing around one comparison.
- Projects, skills, experience, education, footer and page layout: declarative markup and animation delays. The footer also reads the wall clock.
- Real timer and rendering semantics are not modelled: scheduling, effect cleanup and re-render bail-out. Timer firings are discrete events. After the tick that completes a word, React runs one more tick that changes nothing and then stops; the model's no-op typing tick covers it. The uncleared pause timeout is the flag `pausePending`.
- SectionSlug.Slug: requires an ASCII title. Unicode case mapping and Unicode whitespace (`\s` also matches non-ASCII spaces) are not modelled.
- AnimatedCounter.Counter.constructor: requires a positive duration. With duration 0 the source divides by zero (Infinity or NaN), and with a negative duration the increment has the wrong sign.
- AnimatedCounter.OnTick: the accumulator is exact. The source adds IEEE doubles, whose sum may differ from k * increment by rounding (see the firing counts below).
- Typewriter.Hook.constructor: requires a non-empty word list, because with an empty list the source's tick reads an undefined word and fails.
- Typewriter.OnTick: a string's length counts characters, while the source's `length` and `substring` count UTF-16 code units. For a word with a character outside the Basic Multilingual Plane, such as an emoji, the source takes two ticks for that character and can show half a surrogate pair. The tick counts in `TypeWord` and `DeleteWord` hold for words with one code unit per character, as the page's roles are.
- AnimatedCounter.OnTick: the target is an integer, where the source accepts any number. Every call site passes an integer literal.
- AnimatedCounter.RunsBelowTarget, AnimatedCounter.StopsAtTarget, AnimatedCounter.ReachesTarget, AnimatedCounter.StoppedFromCeil, AnimatedCounter.Counter.RunInterval, AnimatedCounter.HeroCounters: the firing counts hold in exact arithmetic only. In double precision the sum of the increments can fall just short of the target, so the program can need one firing more. At the default duration, 120 steps of 4/120 add up to 3.9999999999999956 and 120 steps of 6/120 to 5.999999999999987. So the hero's 4 and 6 counters stop on firing 121; only the 15 counter stops on firing 120.
- AnimatedCounter.Counter.RunInterval: requires a non-negative target, which is what bounds the loop. With a negative target the source's interval may never clear: when the duration is below 1/60 s, the first step already takes the accumulator below the target, and it keeps falling. Every call site passes a positive target.
