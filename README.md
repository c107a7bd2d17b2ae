# PDF password cracker: candidate sources and the bounded-window search

This project models the core of `cracker.py`, a PDF password cracker, and proves
properties of that model. The core has four parts:

- **Generator** (`generator.dfy`) models `generate_passwords`. It enumerates every
  string over the character sequence `chars`, length by length from `min_length`
  to `max_length`. Within one length the order is `itertools.product` order: the
  last position varies fastest. The module also models the line-95 progress total
  `sum(charset_size ** L ...)`. The enumeration is a pure function on sequences.
  `Expand(chars, n, k)` is the base-|chars| expansion of k, and `Rank` reads a
  string back as that number. Expanding a string's rank gives the string back for
  any `chars`. Ranking the k-th tuple gives k back only when `chars` has no
  repeated character: over "aa", tuple 1 is "a", whose rank is 0.
  `Product` (line 12) builds one length's tuples as `itertools.product` does,
  `Candidates` (lines 10-13) joins the products of lengths lo to hi, and `Total`
  (line 95) is the sum of |chars|^L over the same lengths.
- **Wordlist** (`wordlist.dfy`) models `load_passwords` on a file given as its
  decoded lines. Each line is stripped with Python's `str.strip()` whitespace set,
  and a line whose stripped form is empty is dropped. The module also models the
  line-103 count of non-blank lines. `Strip` (line 19) is `str.strip()`, `Keep`
  (lines 19-21) is what one line contributes, `LoadPasswords` (lines 18-21) is the
  whole filter, and `CountNonBlank` (line 103) is the count.
- **Scheduler** (`scheduler.dfy`) models `try_password`'s mapping from the outcome
  of opening the document to `Optional[str]`, and the control loop of
  `decrypt_pdf`. That loop is imperative:
  - the `futures` dictionary is a `map` value, replaced by a new map after each
    pop and each insert (the dictionary is local to `decrypt_pdf`, so nothing
    else can observe it);
  - the candidate iterator is a position `next` into the source;
  - the progress bar is a counter;
  - each pass of `as_completed(list(futures.keys()))` is a loop over that
    snapshot, and the future it takes next is an arbitrary choice.

  Futures are numbered by dispatch. Future t runs candidate `source[t]`.
  `Stops` (lines 53-56) says which candidates end the search: those whose
  `try_password` result is truthy. `FirstStop` is the first such candidate in
  source order.
- **Options** (`options.dfy`) holds the `Option` type that stands for `Optional[str]`.
- **Sequences** (`sequences.dfy`) holds `Distinct`, the "no element twice" predicate
  that both the generator and the scheduler use.

Edge cases where the model follows `cracker.py` as written:

- A `min_length` of 0 is accepted and yields the empty string.
- An empty `chars` yields `[""]` exactly when length 0 is in range. This matches
  `0 ** 0 == 1` in the line-95 total.
- A repeated character in `chars` produces repeated candidates. Both the
  enumeration and its total count them.
- A successful empty password `''` is not reported, because `if result:` treats it
  as no match.
- An unexpected failure of the PDF library is treated like a wrong password.
- A negative `min_length` makes `itertools.product` raise `ValueError` before
  anything is yielded (when the range is not empty).

## Model

| member | source | states |
|---|---|---|
| Generator.Product | cracker.py:12 | `itertools.product(chars, repeat=n)` has \|chars\|^n tuples, repeated characters included |
| Generator.ExtendAt | cracker.py:12 | in one product round, entry i·\|chars\|+j is prefix i followed by character j (the last position varies fastest) |
| Generator.Expand | cracker.py:12-13 | the k-th tuple has length n and uses only characters of chars |
| Generator.Rank | cracker.py:12-13 | the number a string spells in base \|chars\| is below \|chars\|^\|s\| |
| Generator.ProductAt | cracker.py:12-13 | the k-th tuple of the product is the base-\|chars\| expansion of k, most significant digit first |
| Generator.RankExpand | cracker.py:12-13 | over distinct chars, reading the k-th tuple back as a number gives k |
| Generator.ExpandRank | cracker.py:12-13 | expanding the number a string spells gives the string back |
| Generator.ProductExactlyOnce | cracker.py:12-13 | over distinct chars, a string of length n occurs in the product at index k iff k is its rank |
| Generator.GeneratePasswords | cracker.py:10-13 | raises ValueError iff min is negative and the range is not empty; an empty range yields nothing; every yielded string has a length in [min, max] and uses only characters of chars |
| Generator.CandidatesCount | cracker.py:95 | the number of generated candidates equals the line-95 sum of \|chars\|^L over L in [min, max] |
| Generator.CandidatesSound | cracker.py:11-13 | every candidate has a length in [lo, hi] and uses only characters of chars |
| Generator.CandidatesLengthOrder | cracker.py:11 | lengths never decrease along the enumeration |
| Generator.CandidatesHead | cracker.py:11-12 | the enumeration starts with the product of the smallest length |
| Generator.CandidatesSplit | cracker.py:11 | all candidates shorter than mid come before all the others |
| Generator.CandidatesBlock | cracker.py:11-13 | the k-th product of length L comes right after all shorter candidates |
| Generator.CandidatesAt | cracker.py:11-13 | the k-th string of length L is at position Total(lo, L-1)+k, and it is the base-\|chars\| expansion of k |
| Generator.CandidatesOtherLength | cracker.py:11-13 | no candidate equals a string whose length is outside [lo, hi] |
| Generator.CandidatesExactlyOnce | cracker.py:11-13 | over distinct chars, each string over chars with a length in range occurs at position Total(lo, \|s\|-1) + rank, which is in range, and at no other position |
| Generator.CandidatesDistinct | cracker.py:11-13 | over distinct chars, no candidate is generated twice |
| Generator.EmptyAlphabet | cracker.py:11-13 | an empty chars yields [""] if 0 is in range and nothing otherwise; the line-95 total is then 1 or 0 |
| Wordlist.TrimStartSpec | cracker.py:19 | left stripping removes an all-whitespace prefix and leaves no leading whitespace |
| Wordlist.TrimEndSpec | cracker.py:19 | right stripping removes an all-whitespace suffix and leaves no trailing whitespace |
| Wordlist.StripSlice | cracker.py:19 | `line.strip()` is a slice bordered by whitespace only, has no whitespace at either end, and is empty iff the line is all whitespace |
| Wordlist.StripUnique | cracker.py:19 | any split of a line into whitespace, a non-empty core without whitespace at its ends, and whitespace gives that core as the stripped form |
| Wordlist.StripIdempotent | cracker.py:19 | stripping twice is stripping once |
| Wordlist.LoadPasswordsStripped | cracker.py:18-21 | at most one candidate per line; every candidate is non-empty with no whitespace at either end |
| Wordlist.LoadPasswordsCount | cracker.py:103 | the number of candidates equals the line-103 count of lines whose stripped form is non-empty |
| Wordlist.LoadPasswordsAppend | cracker.py:18-21 | filtering works line by line: lines a + b yield a's candidates followed by b's |
| Wordlist.LoadPasswordsLine | cracker.py:19-21 | one line yields its stripped form if that is non-empty and nothing otherwise |
| Wordlist.StripAll | cracker.py:19 | element-wise stripping keeps length and order |
| Wordlist.LoadPasswordsSubsequence | cracker.py:18-21 | the candidates are a subsequence of the stripped lines (file order) |
| Wordlist.LoadPasswordsKeeps | cracker.py:18-21 | the stripped form of every non-blank line is a candidate |
| Wordlist.LoadPasswordsIdempotent | cracker.py:19-20 | filtering the candidates again returns them unchanged |
| Wordlist.KeepBlank | cracker.py:20 | a whitespace-only line contributes nothing |
| Wordlist.KeepWord | cracker.py:19-21 | a word without border whitespace followed by whitespace (a line terminator, say) contributes the word |
| Wordlist.LoadPasswordsExample | cracker.py:18-21 | lines "", "  ", "abc", "", "xyz" yield exactly "abc", "xyz" |
| Scheduler.TryPassword | cracker.py:24-31 | the result is non-None iff the document opened, and then it is the password; a wrong password and any other failure both give None |
| Scheduler.FirstStop | cracker.py:50-58 | the first index whose candidate stops the search (opens the document and is not ''), or None when no candidate does |
| Scheduler.FirstStopAt | cracker.py:50-58 | a stopping candidate with no stopping candidate before it is the first stop |
| Scheduler.SingleWorkerNext | cracker.py:39-61 | with one worker, the only future in flight is the one after all observed completions |
| Scheduler.ObserveAndRefill | cracker.py:52-63 | popping a non-stopping completion and refilling from the iterator if it has more keeps the search invariant: window at most max_workers and full while candidates remain, dispatch in source order, each future observed at most once |
| Scheduler.ConcludeStop | cracker.py:52-58 | observing a stopping completion ends the search with that candidate and all end-of-search guarantees |
| Scheduler.ConcludeExhausted | cracker.py:50-65 | an empty window means every candidate was dispatched and observed in vain |
| Scheduler.TakeCompletion | cracker.py:52-63 | one completion of future t: progress rises by exactly 1 and t is recorded as observed, with the window size at that moment; the search stops iff t's candidate stops it, and then returns that candidate with t popped and nothing refilled; otherwise t is popped and the iterator's next candidate, if any, is dispatched as the next future, and the search invariant holds again |
| Scheduler.TakeRound | cracker.py:51-63 | one pass over the snapshot of in-flight futures, in any completion order: every completion taken in the pass is a future of the snapshot, each at most once; a refill waits for the next pass; if nothing stops the search, every snapshot future was taken, the trace grows by exactly the snapshot's size and the invariant holds again; otherwise the search stops as promised |
| Scheduler.FillWindow | cracker.py:39-44 | the initial fill dispatches source[0..n) as futures 0..n-1, where n is the smaller of max_workers and the source length |
| Scheduler.DecryptPdf | cracker.py:34-65 | a result is a dispatched candidate that opened the document and is not ''; no result iff no candidate stops, and then all were dispatched and progress equals the source length; progress counts distinct dispatched futures, and fewer than max_workers futures are left running; with one worker completions come in source order and the result is the first stop, after index+1 updates |
| Scheduler.EmptySource | cracker.py:39-47 | an empty source ends with None, no progress update and nothing dispatched |
| Scheduler.EarlyStop | cracker.py:34-65 | over "a", "b", "c", "d" with only "c" opening the document, one worker returns "c" after three updates and four workers return "c" |

## Left out

- `pikepdf.open` and the document itself are not modelled. The model takes an oracle `open` that gives, for each candidate, whether opening succeeds, fails with `PasswordError`, or fails otherwise. The oracle is deterministic per candidate.
- `ThreadPoolExecutor`, worker threads and real completion timing are not modelled. Completion order within one `as_completed` pass is an arbitrary choice. `executor.shutdown(cancel_futures=True)` and the final wait of the `with` block are modelled as returning at once.
- Scheduler.DecryptPdf: the `ValueError` that a negative-length generator raises from `next()` is not propagated. The scheduler takes its candidates as a finite sequence. That error is modelled separately by Generator.GeneratePasswords.
- Scheduler.DecryptPdf: the bound of at most max_workers futures in flight is the loop invariant `Searching`, which Scheduler.TakeCompletion and Scheduler.TakeRound keep. The final contract does not restate it; it records each completion's window size in the ghost `window`, which still lies between 1 and max_workers.
- Scheduler.DecryptPdf: `ThreadPoolExecutor` rejects `max_workers <= 0`. The model expresses this as the precondition `maxWorkers >= 1`.
- `tqdm` rendering is not modelled. Only the number of `pbar.update(1)` calls is kept. The `total` argument only feeds the progress bar, so it does not appear in the model.
- File opening, UTF-8 decoding with `errors='ignore'`, and splitting into lines are not modelled. Wordlist input is the sequence of already-decoded lines.
- The command-line block is not modelled: argument parsing, file-existence checks, printing and `sys.exit` (lines 68-113).
- Generator.CandidatesCount: the line-95 total is modelled only for a non-negative minimum length. With a negative minimum, line 95 sums floats such as `2 ** -1`; with an empty `--c` it raises `ZeroDivisionError` on `0 ** -1`, before any search starts. In both cases the search itself would raise `ValueError` from the generator.
- Generator.Candidates is an eager sequence, not a lazy generator. Laziness is visible only through the timing of the `ValueError`, which Generator.GeneratePasswords models.
