# Portfolio site view-state sequencers, in Dafny

A model of the small timer-driven state machines of a single-page portfolio
site. They are written as React components. The model covers:

- **Typewriter** (`typewriter.dfy`, `src/components/Hero.tsx`). The hero
  banner types a phrase one character per 100 ms and pauses 2000 ms once the
  phrase is complete. It then deletes one character per 50 ms and, with the
  buffer empty, moves to the next phrase cyclically.
- **Loading** (`loading.dfy`, `src/components/LoadingPage.tsx`). The splash
  screen has two intervals. A progress ticker adds 2 % every 80 ms. The firing
  that sees 100 % clears the ticker and schedules the completion callback. A
  message rotator steps through eight status messages every second until
  unmount. The screen also has an "icon reached" rule, `index <=
  floor(progress / 12.5)`.
- **Counter** (`counter.dfy`, `AnimatedCounter` in `src/components/About.tsx`).
  Once the counter is in view, an animation-frame loop shows
  `floor(min(elapsed / (duration * 1000), 1) * end)`. It stops when progress
  reaches 1. The count is rendered in decimal, followed by a suffix.
- **Contact** (`contact.dfy`, `src/components/Contact.tsx`). The form record
  is updated one field at a time. A submission runs a simulated send with the
  flags `(isSubmitting, isSubmitted)`. The button's disabled state, its label
  and the success banner are derived from those flags.

Typewriter, Loading and Contact share one shape:

- a datatype of the component's state;
- pure functions for each update, with their lemmas;
- a class whose fields are the component's state variables. The class
  methods follow the source's branches, and each method's `ensures` ties the
  new state to the pure function.

Counter is different: its frame loop is the method `Counter.Animate`, a loop
over the frame timestamps whose locals are the start time and the count. The
count formula is a pure function with its lemmas beside it.

One method call stands for one timer or frame firing. Clocks are parameters:
the typewriter's `Tick` returns the delay that preceded it, and the frame loop
takes the list of frame timestamps.

Two points where the model follows the code rather than a looser reading of it:

- Progress reads 100 after exactly 50 firings. The completion callback is
  scheduled by the 51st firing, which is the one that observes 100 and clears
  the interval. It is not scheduled by the 50th firing, which reaches 100.
- `if (!startTime)` treats an unset start time and a start time of 0 alike.
  The start time is therefore the first non-zero frame timestamp (`Counter.StartTime`).

## Model

| member | source | states |
|---|---|---|
| Typewriter.NextText | src/components/Hero.tsx:37-42 | keeps the buffer a prefix of the phrase; a deleting update removes exactly the last character; a typing update appends exactly the phrase's next character |
| Typewriter.Step | src/components/Hero.tsx:20-46 | one firing keeps the phrase index in range and keeps the buffer a prefix of the current phrase |
| Typewriter.Wait | src/components/Hero.tsx:25-43 | the wait before a firing is 2000 ms exactly for the pause and 0 exactly for moving to the next phrase; a character firing waits at most 100 ms |
| Typewriter.Run | src/components/Hero.tsx:20-46 | the phrase index stays in range after any number of firings |
| Typewriter.RunPreservesInv | src/components/Hero.tsx:20-46 | the buffer stays a prefix of the current phrase after any number of firings |
| Typewriter.TypingAppendsNextChar | src/components/Hero.tsx:41 | a typing firing on an incomplete phrase makes the buffer one character longer, adding the phrase's next character, and changes nothing else |
| Typewriter.DeletingDropsLastChar | src/components/Hero.tsx:39 | a deleting firing on a non-empty buffer removes exactly its last character and keeps the index and the direction |
| Typewriter.FullPhrasePauses | src/components/Hero.tsx:22-28 | with the phrase complete and not deleting, the text is unchanged; the only change is the switch to deleting, after 2000 ms |
| Typewriter.IndexAdvancesOnlyWhenEmptied | src/components/Hero.tsx:23-33 | from an empty buffer while deleting, the index moves to (i+1) mod N and typing resumes; otherwise the index stays; with N > 1 this is an if-and-only-if |
| Typewriter.EditWaitDependsOnDirection | src/components/Hero.tsx:43 | the character timer waits 50 ms while deleting and 100 ms while typing, so its delay depends on the direction alone |
| Typewriter.TypesRest | src/components/Hero.tsx:37-42 | from any prefix of a phrase, one typing firing per missing character completes the phrase, and later firings continue from the complete phrase |
| Typewriter.DeletesRest | src/components/Hero.tsx:37-42 | from any prefix of a phrase, one deleting firing per character empties the buffer, and later firings continue from the empty buffer |
| Typewriter.FullCycle | src/components/Hero.tsx:20-46 | from ("", i, typing), \|w\| firings show the whole phrase; 2\|w\|+2 firings give ("", (i+1) mod N, typing) |
| Typewriter.HeroFirstPhrase | src/components/Hero.tsx:8-18 | from mount, 22 firings show "Cybersecurity Engineer" |
| Typewriter.SinglePhraseCycle | src/components/Hero.tsx:20-46 | with the one phrase "AB", 2 firings type it, and 6 firings return to the mount state with the index back at 0 |
| Typewriter.Sequencer.constructor | src/components/Hero.tsx:8-10 | mounts with an empty buffer, index 0, typing |
| Typewriter.Sequencer.Tick | src/components/Hero.tsx:20-46 | the state after one firing is `Step` of the old state, the invariant is kept, and the returned wait is 2000, 0, 50 or 100 ms as the branch demands |
| Loading.NextProgress | src/components/LoadingPage.tsx:27-34 | below 100 the updater adds exactly 2; at or above 100 it returns 100; an even value in [0, 100] stays even, within bounds and does not decrease |
| Loading.ProgressTick | src/components/LoadingPage.tsx:26-35 | keeps progress even and within [0, 100] with at most one completion scheduled; never lowers progress; a completion is scheduled only by a running ticker that observes 100, and that firing stops the ticker and leaves 100 |
| Loading.Cancel | src/components/LoadingPage.tsx:37 | cleanup stops the ticker without touching progress or completions, and keeps the invariant |
| Loading.RunKeepsInv | src/components/LoadingPage.tsx:25-38 | after any number of firings, progress stays even, within [0, 100] and non-decreasing, and at most one completion is scheduled |
| Loading.ProgressSchedule | src/components/LoadingPage.tsx:25-38 | from mount, k firings give progress min(2k, 100), which is 100 iff k >= 50; exactly one completion is scheduled iff k >= 51 |
| Loading.Rotate | src/components/LoadingPage.tsx:42 | the message index stays in [0, 8) and wraps to 0 exactly after the last message |
| Loading.RotateTimes | src/components/LoadingPage.tsx:40-46 | any number of rotations keeps the index in [0, 8) |
| Loading.RotateTimesIsModular | src/components/LoadingPage.tsx:40-46 | k rotations move the index from i to (i+k) mod 8 |
| Loading.ReachedLevel | src/components/LoadingPage.tsx:223 | the integer (2p)/25 is the floor of the real p / 12.5 |
| Loading.IconReached | src/components/LoadingPage.tsx:223-228 | icon i is reached exactly when i <= p / 12.5 over the reals, which is the same as i <= floor(p / 12.5) |
| Loading.ReachedIconsGrow | src/components/LoadingPage.tsx:222-231 | the set of reached icons only grows with progress |
| Loading.ReachedIconsAtEnds | src/components/LoadingPage.tsx:222-231 | at 0 % only icon 0 is reached; at 100 % all eight are |
| Loading.LoadingScreen.constructor | src/components/LoadingPage.tsx:11-12 | mounts with progress 0, message 0, both intervals armed and no completion scheduled |
| Loading.LoadingScreen.CurrentMessage | src/components/LoadingPage.tsx:103 | indexing the message list with the current index is always in bounds |
| Loading.LoadingScreen.OnProgressInterval | src/components/LoadingPage.tsx:25-38 | the ticker's new state is `ProgressTick` of its old state; the rotator is untouched |
| Loading.LoadingScreen.OnRotateInterval | src/components/LoadingPage.tsx:40-46 | while its interval is armed the message index rotates whatever the progress; the ticker is untouched |
| Loading.LoadingScreen.Unmount | src/components/LoadingPage.tsx:37-45 | cleanup clears both intervals and leaves the progress, the message index and the scheduled completion as they were |
| Counter.CountAt | src/components/About.tsx:17-18 | count 0 at elapsed 0; count `end` once elapsed >= duration*1000; for end >= 0 the count lies in [0, end] |
| Counter.CountAtIsExact | src/components/About.tsx:17-18 | the integer formula equals floor(min(elapsed/(duration*1000), 1) * end) over exact reals |
| Counter.CountAtMonotone | src/components/About.tsx:17-18 | for end >= 0 the count never decreases as elapsed time grows |
| Counter.HalfwayExample | src/components/About.tsx:6-18 | with the default 2 s duration, end = 100 gives 50 at 1000 ms |
| Counter.StartTime | src/components/About.tsx:16 | the start time is 0 only while every timestamp seen is 0; with timestamps in order it is no later than the current frame |
| Counter.StartTimeSeen | src/components/About.tsx:16 | the start time is 0 or one of the timestamps seen |
| Counter.StartTimeStable | src/components/About.tsx:16 | once the start time is non-zero, a further frame does not change it |
| Counter.StartTimeIsFirstNonZero | src/components/About.tsx:16 | the start time is the first non-zero timestamp seen |
| Counter.StartTimeKept | src/components/About.tsx:16 | the start time fixed by one frame is the one every later frame measures from |
| Counter.Elapsed | src/components/About.tsx:16-17 | the first frame has elapsed time 0, and no frame's elapsed time exceeds its timestamp |
| Counter.ElapsedMonotone | src/components/About.tsx:16-17 | with timestamps in order, elapsed time never decreases from one frame to a later one |
| Counter.FrameCountsRise | src/components/About.tsx:15-19 | the first frame shows 0; for end >= 0, a later frame never shows a smaller count than an earlier one |
| Counter.Animate | src/components/About.tsx:10-28 | out of view, nothing is rendered and the count stays 0; in view, each frame shows the formula for its elapsed time; the loop asks for another frame exactly while elapsed < duration*1000; when it stops by itself the count is exactly `end` |
| Counter.NatToDecimal | src/components/About.tsx:30 | the decimal text is non-empty, all digits, and has no leading zero |
| Counter.NatToDecimalRoundTrip | src/components/About.tsx:30 | the digits read back as the number |
| Counter.IntToDecimalRoundTrip | src/components/About.tsx:30 | the signed decimal text reads back as the count |
| Counter.Rendered | src/components/About.tsx:30 | the rendered text is the count's decimal text, which reads back as the count, followed by the suffix |
| Counter.RenderedHalfway | src/components/About.tsx:6-30 | with the default suffix, end = 100 renders "50" at 1000 ms |
| Contact.HandleInputChange | src/components/Contact.tsx:17-22 | the named field takes the new value and the other three fields are unchanged |
| Contact.ButtonDisabled | src/components/Contact.tsx:198 | the button is disabled exactly when its label is not 'Send Message' |
| Contact.BannerShown | src/components/Contact.tsx:135 | with the flags exclusive, the banner shows only alongside the label 'Sent!'; without the banner the label is never 'Sent!' |
| Contact.IconBounces | src/components/Contact.tsx:201 | the send icon bounces exactly when the label reads 'Sending...' |
| Contact.ButtonLabel | src/components/Contact.tsx:203 | the label is one of 'Sending...', 'Sent!' and 'Send Message' |
| Contact.Submit | src/components/Contact.tsx:24-26 | a disabled button or an empty required field leaves the state as it is; otherwise the state becomes submitting and not submitted; the form data is untouched |
| Contact.SubmissionResolved | src/components/Contact.tsx:29-32 | after the simulated send the state is not submitting and submitted, with the data untouched |
| Contact.ResetAfterSuccess | src/components/Contact.tsx:35-38 | all four fields are cleared and submitted is lowered |
| Contact.TransitionsKeepExclusive | src/components/Contact.tsx:17-39 | no handler or continuation ever makes isSubmitting and isSubmitted both true |
| Contact.LabelAgreesWithButton | src/components/Contact.tsx:198-203 | the label is 'Send Message' exactly when the button is enabled; while the banner shows, the button is disabled |
| Contact.SubmissionSequence | src/components/Contact.tsx:24-39 | a submission of a filled form goes (f,f) → (t,f) → (f,t) → (f,f); the data is kept until the last step, which clears it; the labels are 'Sending...' and 'Sent!', the button is disabled, and the banner shows only in the submitted phase |
| Contact.ContactForm.constructor | src/components/Contact.tsx:8-15 | mounts with four empty fields and both flags down |
| Contact.ContactForm.OnInputChange | src/components/Contact.tsx:17-22 | the form becomes `HandleInputChange` of the old form; the flags are untouched |
| Contact.ContactForm.OnSubmit | src/components/Contact.tsx:24-26 | the new state is `Submit` of the old one, and the flags stay exclusive |
| Contact.ContactForm.OnSendResolved | src/components/Contact.tsx:29-32 | the new state is `SubmissionResolved` of the old one |
| Contact.ContactForm.OnResetTimeout | src/components/Contact.tsx:35-38 | the new state is `ResetAfterSuccess` of the old one |

## Left out

- Timers and scheduling (`setTimeout`, `setInterval`, `requestAnimationFrame`): each firing is one explicit call. Wall-clock time, the interleaving of independent timers and React's batching or double-invoked effects are not modelled.
- The 2000 ms pause timeout in `src/components/Hero.tsx:26` is never cleared. The model treats the pause as a single firing, so a stale pause timer firing later is not captured.
- The completion callback itself: the model counts how many completions the ticker schedules. It does not model the 500 ms delay or the caller's reaction (`src/pages/Index.tsx` hides the splash). That timeout is not cancelled by unmount cleanup, and the model does not let unmount withdraw it either.
- Visibility detection (`useInView`): `inView` is an input of `Counter.Animate`. Trigger-once behaviour and the re-run of the effect when `end` or `duration` change are not modelled.
- Counter.CountAt: requires `duration > 0`. It takes `duration` in whole seconds and `end` as an integer. A zero duration (a NaN count in the browser), fractional durations or targets, and floating-point rounding are not modelled; the formula is evaluated exactly.
- Counter.Animate: takes a finite list of frame timestamps, so a loop that has not finished when the list ends is reported as not finished rather than continuing.
- Contact.Submit: the browser blocks submission on an empty `required` field and on a disabled button. The model captures both checks. It does not model the email syntax check of `type="email"`, `preventDefault`, or the two-second await as elapsed time.
- Typewriter.NextText: a Dafny `string` counts Unicode scalar values, while JavaScript's `slice` and `length` (src/components/Hero.tsx:39, 41) count UTF-16 code units. The five ASCII phrases behave the same either way; a phrase with a character outside the Basic Multilingual Plane would not.
- Counter.NatToDecimal: always writes every digit. JavaScript's number-to-string conversion at src/components/About.tsx:30 switches to exponent notation from 1e21, which the site's counts never reach.
- framer-motion variants, staggered reveal delays and icon components: these are declarative animation configuration for a library that is not modelled here.
- `src/components/ScrollProgressBar.tsx`, `Header.tsx`, `Footer.tsx`, `Skills.tsx`, `Projects.tsx`, `Experience.tsx`, `Certifications.tsx`, `Education.tsx` and `src/pages/Index.tsx` are not part of this model. They hold DOM measurement, scrolling, a menu or tab toggle, or static content.
