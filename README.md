# stock_agent tool guards, in Dafny

`main.py` of stock_agent is a terminal stock-analysis agent. Most of it is glue between
LangChain, a hosted LLM and data services. The part of it that makes decisions of its own is
the layer of checks and text shaping in front of the agent's tools. This project models that
layer and proves what it guarantees:

- **`write_local_file`** (module `Sandbox`). The path the agent supplies is joined onto the
  sandbox `./agent_workspace` and resolved. A target that is not component-wise inside the
  sandbox is refused. Otherwise the parent directories are created and the file is written.
  - `GuardWrite` is the decision.
  - `Disk.WriteLocalFile` is the guard-then-mkdir-then-write sequence. It runs over a small
    file-system state: a map of files and a set of directories. An OS error's message shows
    the path by its Python `repr` (module `Repr`): quote choice and backslash escapes.
- **`analyze_local_document`** (module `KnowledgeBase`), in this order:
  - the read guard, a character-prefix test on the resolved path's string form;
  - the existence check;
  - the choice of loader by lower-cased suffix against `ALLOWED_EXTENSIONS`;
  - the filter that drops whitespace-only chunks;
  - the layout of the answer.

  The file system, the loaders and splitter, and the embedding/FAISS retrieval are
  parameters. The reply records which of them were called, and with what arguments.
- **`list_kb_files`** (module `KnowledgeBase`): filters the directory entries to regular
  files with a whitelisted suffix, and formats the result.
- **`HackerMatrixCallback`** (module `Callback`):
  - the thought text cut before `Action:`;
  - the 150-character tool-output snippet.
- **The REPL** (module `Repl`): each prompt result is classified as an exit word, a blank
  line, Ctrl+C, Ctrl+D or a question. The loop hands the questions to the agent.

## Path semantics

`Paths` models pathlib lexically:
- A resolved path is a list of components below `/`. Its string form is `/` followed by the
  components joined with `/`.
- Parsing drops empty and `.` components.
- Joining onto an absolute path replaces the base.
- Resolving walks the components. `..` removes the last component and stays at `/` when
  there is none.
- A path holding a NUL character raises `ValueError("embedded null byte")`. Resolving stats
  the path, and CPython refuses to stat such a path.
- `is_relative_to` is component-prefix containment.
- `suffix` follows CPython 3.12: the text from the last `.` of the final component, provided
  that dot is neither the first nor the last character.

`Text` supplies:
- `str.strip` and `str.isspace`, with CPython's whitespace set;
- ASCII `str.lower`;
- `str.split` on one character;
- `str.join`;
- the first-occurrence cut `split(pat)[0]`.

It also proves the properties of these that the rest of the model relies on.

## Model

| member | source | states |
|---|---|---|
| Sandbox.SandboxDirResolved | main.py:52 | `Path("./agent_workspace").resolve()` is exactly `SANDBOX_DIR`, the directory `agent_workspace` below the working directory |
| Sandbox.GuardWrite | main.py:162-169 | a NUL in the path raises; an accepted target is normal, inside the sandbox and is the resolved path; a refusal means the resolved path is outside the sandbox |
| Sandbox.WriteStaysAccepted | main.py:162-169 | a relative path never climbing above its start is accepted at the sandbox followed by its own walk |
| Sandbox.PlainPathAccepted | main.py:162-169 | a relative path without `..` is accepted at the sandbox followed by exactly its components |
| Sandbox.ParentEscapeRefused | main.py:162-169 | a path starting with `..` is refused unless it re-enters the sandbox's own directory name |
| Sandbox.ClimbRefused | main.py:162-169 | climbing m levels and descending along `rest` is accepted if and only if `rest` starts with the m components just left |
| Sandbox.AbsoluteRefused | main.py:162-169 | an absolute path with no `..` component replaces the base and is refused once its first component differs from the sandbox's (or it has none) |
| Sandbox.DoubleParentRefused | main.py:162-169 | `../../etc/passwd` is refused for every working directory, `/` included, where both `..` stop at the root |
| Sandbox.Disk.WriteLocalFile | main.py:158-181 | gives the whole new state and the reply on each branch (NUL error, refusal, mkdir failure with errno 17 or 20, target is a directory with errno 21, success), each OS error text showing the path by its Python `repr`; the tree invariant is kept; every file it adds or changes is inside the sandbox |
| Repr.PyRepr | main.py:181 | the `repr` of the path in an OS error message is framed by one quote character: `"` when the text holds `'` but no `"`, `'` otherwise |
| Repr.ReprRoundTrip | main.py:181 | reading the `repr` back with Python's escape rules gives the original text, so the message shows the failing path exactly |
| Repr.UnescapeChar | main.py:181 | each code point's escape (`\\`, the quote, `\t`, `\n`, `\r`, `\xhh`, `\uhhhh`, `\Uhhhhhhhh`, or the character itself) decodes to that code point and consumes nothing after it |
| Repr.HexRoundTrip | main.py:181 | the `w` lower-case hexadecimal digits of `n < 16^w` read back as `n` |
| Repr.ReprPlain | main.py:181 | a text with no `'`, no backslash and no non-printable character is shown as `'` + text + `'` |
| Repr.ReprApostrophe | main.py:181 | a text holding `'` but no `"`, with no backslash or non-printable character, is shown as `"` + text + `"` |
| KnowledgeBase.KbDirResolved | main.py:57 | `Path("./knowledge_base").resolve()` is exactly `KB_DIR`, the directory `knowledge_base` below the working directory |
| KnowledgeBase.ContainedPasses | main.py:193-196 | every target component-wise inside the knowledge base passes the read guard |
| KnowledgeBase.ReadGuardPasses | main.py:195 | the read guard is a character-prefix test between the string forms of the target and of `KB_DIR`; `ReadGuardMeaning` gives the exact set of targets it admits and `ContainedPasses` shows it admits everything inside `KB_DIR` |
| KnowledgeBase.ReadGuardMeaning | main.py:193-196 | the read guard passes if and only if the target agrees with `KB_DIR` on all but its last component, and that last component is a character prefix of the target's next one |
| KnowledgeBase.SiblingPasses | main.py:193-196 | `../knowledge_baseX/...` resolves to a sibling of the knowledge base that passes the read guard while not being inside the knowledge base |
| KnowledgeBase.Extension | main.py:202 | the extension is the lower-cased CPython suffix of the target's last component; `SuffixIgnoresCase` and `DispatchIgnoresCase` show it does not depend on letter case |
| KnowledgeBase.LoaderFor | main.py:202-209 | a loader is chosen if and only if the extension is in `ALLOWED_EXTENSIONS`, and the PDF loader if and only if it is `.pdf` |
| KnowledgeBase.DispatchIgnoresCase | main.py:202 | a non-empty name followed by the upper-cased form of a lower-case extension (a dot, then at least one character, none a dot) dispatches as that lower-case extension |
| KnowledgeBase.SuffixIgnoresCase | main.py:202 | any two names that agree up to ASCII case have lower-cased suffixes that are equal, so they dispatch alike |
| KnowledgeBase.AllowedShape | main.py:61 | every whitelisted extension is a dot followed by at least one lower-case, dot-free character |
| KnowledgeBase.NonBlank | main.py:217 | the kept chunks are exactly the input chunks that are not whitespace-only; the result is empty if and only if every chunk is blank |
| KnowledgeBase.NonBlankAppend | main.py:217 | the filter distributes over concatenation, so the kept chunks stay in their original order |
| KnowledgeBase.NonBlankKeepsText | main.py:217 | on chunks that are all non-blank, the filter keeps the list unchanged |
| KnowledgeBase.SetRepr | main.py:209 | Python's `repr` of the whitelist set, listing the elements in a given iteration order; `SetReprLists` states its layout |
| KnowledgeBase.SetReprLists | main.py:209 | the set's `repr` is braced and shows every element in single quotes, in iteration order, with `, ` after every element but the last |
| KnowledgeBase.UnsupportedText | main.py:209 | the unsupported-format reply names the lower-cased suffix and then the whitelist's `repr`; `AnalyzeUnsupported` shows exactly when it is given |
| KnowledgeBase.AnswerText | main.py:232-233 | the success reply: the head naming the file, the retrieved passages joined with `\n---\n`, and the tail; `AnswerLayout` places each passage and `AnalyzeSearches` shows when it is given |
| KnowledgeBase.AnswerLayout | main.py:232-233 | the answer starts with the fixed head naming the file and ends with the fixed tail; each retrieved passage appears, in retriever order, at its offset after the head, and every passage but the last is followed by `\n---\n` |
| KnowledgeBase.AnalyzeDocument | main.py:186-236 | a NUL path gives the error reply and a refused path gives the interception reply, both with no external call. Any call sequence starts with the existence check of the guarded target. A load happens only on an existing file, with the loader its extension selects. A search happens only on a non-empty list of non-blank chunks, with k = 3, after the load |
| KnowledgeBase.AnalyzeNotFound | main.py:198-199 | a guarded target that does not exist gets the not-found reply naming the file, after the existence check alone |
| KnowledgeBase.AnalyzeUnsupported | main.py:202-209 | an existing file whose lower-cased suffix is not whitelisted gets the unsupported-format reply naming that suffix and the whitelist, and is never loaded |
| KnowledgeBase.AnalyzeLoadFails | main.py:212-236 | a load that raises gives the error reply after the existence check and that load, and no search runs |
| KnowledgeBase.BlankDocumentRejected | main.py:217-220 | a document whose chunks are all blank gets the empty-content reply after the existence check and the load, and no search runs |
| KnowledgeBase.AnalyzeSearches | main.py:217-233 | when some chunk is non-blank, exactly the existence check, the load and one search run, in that order; the search receives exactly the non-blank chunks, the query and k = 3; the reply is the answer assembled from the retrieved passages, or the error reply when the search raises |
| KnowledgeBase.SiblingChecked | main.py:193-199 | a path into a sibling directory such as `knowledge_base2` gets past the read guard and reaches the existence check of that sibling path |
| KnowledgeBase.ListedNames | main.py:249 | a name is listed if and only if some entry with that name is a regular file whose lower-cased suffix is whitelisted |
| KnowledgeBase.ListedAppend | main.py:249 | the listing distributes over concatenation, so iteration order is kept |
| KnowledgeBase.ListedLoadable | main.py:249 | every listed name has a suffix that analyze will dispatch to a loader |
| KnowledgeBase.ListKbFiles | main.py:248-254 | an error gives the error reply; an empty listing gives the empty message; otherwise the reply is the header followed by the names joined with newlines |
| KnowledgeBase.ListingLines | main.py:252 | when no listed name contains a newline, splitting the listing body on newlines gives back exactly the listed names |
| Callback.ThoughtText | main.py:72 | the thought is the stripped form of the prefix of the log that ends at the first `Action:`: no `Action:` starts inside that prefix, and `Action:` follows it unless it is the whole log |
| Callback.ThoughtWithoutAction | main.py:72 | without `Action:` in the log, the thought is the whole stripped log |
| Callback.ThoughtStopsAtAction | main.py:72 | when the log is a text without `Action:` in it, then `Action:`, then anything, the thought is that stripped text |
| Callback.ToolSnippet | main.py:85 | gives the snippet's length, its `...` ending, and a character-by-character match with the first min(150, n) characters of the output, where each newline becomes a space |
| Callback.SnippetShape | main.py:85 | the snippet is at most 153 characters long and contains no newline |
| Callback.SnippetIgnoresRest | main.py:85 | output beyond the first 150 characters does not change the snippet |
| Callback.ShortOutputShown | main.py:85 | a single-line output of at most 150 characters is shown in full, followed by `...` |
| Repl.Classify | main.py:323-330 | an input is an exit word if and only if its lower-cased text is `quit`, `exit` or `退出`; a question if and only if it is not an exit word and not blank, passed on unchanged; Ctrl+C cancels and Ctrl+D hangs up |
| Repl.RunSession | main.py:316-356 | the loop asks exactly the questions of `Asked(inputs)` and ends with the goodbye of `Farewell(inputs)` |
| Repl.AskedAreQuestions | main.py:323-330 | no blank input and no exit word is ever handed to the agent |
| Repl.AskedKeepsOrder | main.py:316-334 | a question typed before any stop is asked after the earlier ones |
| Repl.NothingAfterStop | main.py:316-354 | after an exit word or end of input, later input is neither asked nor changes the goodbye |
| Repl.InterruptIgnored | main.py:348-351 | Ctrl+C cancels only the current prompt and the session carries on |
| Repl.ClassifyIgnoresCase | main.py:323-330 | two lines that agree up to ASCII letter case are both exit words or neither, and both questions or neither |
| Repl.UpperQuitEnds | main.py:323-325 | the literal `QUIT` is an exit word and ends the session |
| Repl.PaddedQuitAsked | main.py:323-332 | ` quit` with a leading space is not an exit word and is handed to the agent unchanged |
| Paths.Parse | main.py:162 | a parsed path is absolute if and only if its string starts with `/`, and its components are non-empty and not `.`; `ParseJoined` fixes them as the string's `/`-pieces |
| Paths.ParseJoined | main.py:162 | parsing a string given as its `/`-separated pieces gives exactly those pieces with the empty and `.` ones dropped, and the path is absolute if and only if the first piece is empty and there are at least two |
| Paths.DirBelow | main.py:52 | `Path("./" + name).resolve()` for one plain name is the working directory with that name appended: inside the working directory, one level deeper, with that name as its last component |
| Paths.DirBelowResolved | main.py:57 | resolving `./name` from the working directory gives exactly `DirBelow` of that name |
| Paths.IsRelativeTo | main.py:168 | `is_relative_to` is component-prefix containment; `ClimbRefused` and `ParentEscapeRefused` state what it refuses, and `SiblingPasses` shows the read guard is weaker |
| Paths.Resolve | main.py:162 | a resolved path has no empty, `.` or `..` component and no `/` inside one |
| Paths.ResolveRelative | main.py:162 | a relative path is walked from the base |
| Paths.ResolveAbsolute | main.py:162 | an absolute path ignores the base |
| Paths.CollapseStays | main.py:162 | a walk that never climbs above its start extends the starting directory |
| Paths.NoParentStays | main.py:162 | a path without `..` never climbs above its start |
| Paths.Suffix | main.py:202 | a non-empty suffix is the text from the last dot, which is neither the first nor the last character of the name; the suffix is empty only when no such dot exists |
| Paths.JoinPrefix | main.py:195 | the exact meaning of a character-prefix test between two joined component lists |
| Paths.RenderParse | main.py:195 | the string form of a resolved path parses back to the same path |
| Text.Strip | main.py:72 | the stripped text is what is left of the input after a whitespace-only prefix and then a whitespace-only suffix are removed; it is empty if and only if the input is blank, and otherwise starts and ends with non-space characters |
| Text.Lower | main.py:323 | lower-casing maps each character independently |
| Text.BeforeFirst | main.py:72 | the cut text is a prefix of the input, no match starts inside it, and the pattern follows it unless it is the whole input |
| Text.JoinSplitOn | main.py:252 | joining the pieces of a split on a character gives back the text |
| Text.SplitOnJoin | main.py:252 | splitting a join of a non-empty list of separator-free pieces gives back the pieces |
| Text.JoinAt | main.py:232 | in a join, each piece sits at its computed offset, and every piece but the last is followed by the separator |

## Left out

- Symbolic links and the real file system: `resolve()` is modelled lexically. The working directory is a parameter of `SandboxDir`, `KbDir` and `DirBelow`.
- The special `//` root of POSIX paths: a leading `//` is treated like `/`.
- Unicode case mapping: `str.lower` is modelled for ASCII letters only.
- `read_local_file` (main.py:131-146): it has no guard, and it is not part of this model.
- `get_stock_price`, `search_company_ticker`, the LangChain agent and executor, chat memory, the environment and API-key handling, and all rich/prompt_toolkit rendering: these are library and network calls, or display only.
- The document loaders, the text splitter (its chunk size and overlap), the DashScope embeddings, FAISS and the retriever: `AnalyzeDocument` takes their results as the `load` and `search` parameters.
- The agent's answer while the REPL runs: `RunSession` records the questions handed over, not what comes back.
- The `except Exception` branch of the REPL, and the Rich panel: an agent error and an agent answer both lead to the next prompt, and the model does not tell them apart.
- KnowledgeBase.ListingLines: the round trip is proved only for names without a newline. Linux allows a newline in a file name, and the listing then shows such a name on several lines, so the names cannot be read back from the reply.
- Repr.IsPrintable: exact for ASCII and Latin-1; beyond them only the separators, the common format characters, the private-use areas and some unassigned ranges are escaped. Other format characters and unassigned code points count as printable, where CPython would escape them, because the Unicode character database is not modelled.
- Repr.Unescape: reads the escapes `repr` writes, not the rest of the Python literal syntax (octal, `\N{...}`, `\a` and the like).
- OS errors other than `EEXIST`, `ENOTDIR` and `EISDIR`: permissions, full disks and encoding errors are not modelled.
- The printed form of `ALLOWED_EXTENSIONS`: the whitelist in the unsupported-format reply is rendered in an iteration order taken as a parameter, because Python's set order depends on the string hash seed.
- Repl.RunSession: the loop runs over a finite script of prompt results and stops when the script runs out, where the program would block on the next prompt.
- Float rounding of stock prices.
