/** The knowledge-base tools: `analyze_local_document` (read guard, loader dispatch, chunk
    filter, answer assembly) and `list_kb_files` (the directory listing filter). */
module KnowledgeBase {
  import opened Wrappers
  import opened Text
  import opened Paths

  /** `KB_DIR`: the directory `knowledge_base` below the working directory `cwd`. */
  function KbDir(cwd: Segments): Segments
    requires IsNormal(cwd)
  {
    DirBelow(cwd, "knowledge_base")
  }

  /** `./knowledge_base` resolves to `KbDir(cwd)`. */
  lemma KbDirResolved(cwd: Segments, kb: string)
    requires IsNormal(cwd) && kb == "./knowledge_base"
    ensures Resolve(cwd, kb) == KbDir(cwd)
  {
    DirBelowResolved(cwd, kb, "knowledge_base");
  }

  /** `ALLOWED_EXTENSIONS`. */
  const AllowedExtensions: set<string> := {".pdf", ".md", ".txt", ".csv"}

  // ---- The read guard ------------------------------------------------------------------

  /** The test of `analyze_local_document`: the string form of the target starts with the
      string form of `KB_DIR`. */
  predicate ReadGuardPasses(kb: Segments, target: Segments) {
    StartsWith(Render(target), Render(kb))
  }

  /** Every target component-wise inside the knowledge base passes the read guard. */
  lemma ContainedPasses(kb: Segments, target: Segments)
    requires IsRelativeTo(target, kb)
    ensures ReadGuardPasses(kb, target)
  {
    RenderPrefix(target, kb);
  }

  /** What the read guard really admits: everything that shares all of `KB_DIR` but its last
      component, and whose next component merely starts with that last component's name. */
  lemma ReadGuardMeaning(kb: Segments, target: Segments)
    requires IsNormal(kb) && |kb| >= 1 && NoSlash(target)
    ensures ReadGuardPasses(kb, target) <==>
      |target| >= |kb| && target[..|kb| - 1] == kb[..|kb| - 1] &&
      StartsWith(target[|kb| - 1], kb[|kb| - 1])
  {
    StartsWithAfter("/", Join(target, "/"), Join(kb, "/"));
    JoinPrefix(target, kb);
  }

  /** The read guard is strictly weaker than component-wise containment: a sibling directory
      whose name extends `knowledge_base` (such as `knowledge_base2`), reached with
      `../<sibling>/...`, passes it although it lies outside `KB_DIR`. */
  lemma SiblingPasses(cwd: Segments, sibling: string, rest: Segments, fileName: string)
    requires IsNormal(cwd) && IsNormal([sibling] + rest)
    requires StartsWith(sibling, "knowledge_base") && sibling != "knowledge_base"
    requires fileName == Join([".."] + ([sibling] + rest), "/")
    ensures Resolve(KbDir(cwd), fileName) == cwd + ([sibling] + rest)
    ensures ReadGuardPasses(KbDir(cwd), cwd + ([sibling] + rest))
    ensures !IsRelativeTo(cwd + ([sibling] + rest), KbDir(cwd))
  {
    var kb := KbDir(cwd);
    var down := [sibling] + rest;
    var pieces := [".."] + down;
    assert NoSlash(pieces) && forall i :: 0 <= i < |pieces| ==> pieces[i] != "" && pieces[i] != ".";
    ParseJoined(fileName, pieces);
    CleanKeeps(pieces);
    assert pieces[1..] == down;
    ResolveRelative(kb, fileName);
    assert Step(kb, "..") == cwd;
    CollapseOfNormal(cwd, down);
    var t := cwd + down;
    assert t[..|kb| - 1] == cwd == kb[..|kb| - 1];
    assert t[|kb| - 1] == sibling;
    ReadGuardMeaning(kb, t);
    assert t[|cwd|] != kb[|cwd|];
  }

  // ---- Loader dispatch -------------------------------------------------------------------

  datatype Loader = PdfLoader | Utf8TextLoader

  /** The loader chosen for a lower-cased suffix; the accepted suffixes are exactly
      `ALLOWED_EXTENSIONS`, and only `.pdf` goes to the PDF loader. */
  function LoaderFor(ext: string): (r: Option<Loader>)
    ensures r.Some? <==> ext in AllowedExtensions
    ensures r == Some(PdfLoader) <==> ext == ".pdf"
  {
    if ext == ".pdf" then Some(PdfLoader)
    else if ext in [".md", ".txt", ".csv"] then Some(Utf8TextLoader)
    else None
  }

  /** `target_path.suffix.lower()`. */
  function Extension(target: Segments): string {
    Lower(Suffix(Name(target)))
  }

  /** Dispatch ignores the case of the suffix: the extension read off `Report.PDF` is `.pdf`,
      so an upper-cased suffix is dispatched exactly like its lower-case form. */
  lemma DispatchIgnoresCase(name: string, ext: string)
    requires |name| >= 1
    requires |ext| >= 2 && ext[0] == '.' && (forall j :: 1 <= j < |ext| ==> ext[j] != '.') && NoUpper(ext)
    ensures Lower(Suffix(name + Upper(ext))) == ext
  {
    var u := Upper(ext);
    assert u[0] == '.' && forall j :: 1 <= j < |u| ==> u[j] != '.';
    SuffixAppended(name, u);
    LowerUpper(ext);
  }

  /** Every whitelisted extension has the shape `DispatchIgnoresCase` speaks of. */
  lemma AllowedShape(ext: string)
    requires ext in AllowedExtensions
    ensures |ext| >= 2 && ext[0] == '.' && (forall j :: 1 <= j < |ext| ==> ext[j] != '.') && NoUpper(ext)
  {
    if ext == ".pdf" {
    } else if ext == ".md" {
    } else if ext == ".txt" {
    } else {
      assert ext == ".csv";
    }
  }

  /** A dotted ending without further dots, appended to a non-empty name, is its suffix. */
  lemma SuffixAppended(name: string, ext: string)
    requires |name| >= 1
    requires |ext| >= 2 && ext[0] == '.' && forall j :: 1 <= j < |ext| ==> ext[j] != '.'
    ensures Suffix(name + ext) == ext
  {
    var full := name + ext;
    LastDotIs(full, |name|);
    assert full[|name|..] == ext;
  }

  /** Names that agree up to ASCII case have extensions that agree up to ASCII case: the
      extension test `suffix.lower()` cannot tell them apart. */
  lemma SuffixIgnoresCase(a: string, b: string)
    requires Lower(a) == Lower(b)
    ensures Lower(Suffix(a)) == Lower(Suffix(b))
  {
    assert |a| == |Lower(a)| == |b|;
    forall i | 0 <= i < |a| ensures a[i] == '.' <==> b[i] == '.' {
      assert Lower(a)[i] == Lower(b)[i];
    }
    LastDotSameDots(a, b);
    var i := LastDot(a);
    if 0 < i < |a| - 1 {
      LowerSlice(a, i);
      LowerSlice(b, i);
    }
  }

  lemma LowerSlice(s: string, i: nat)
    requires i <= |s|
    ensures Lower(s[i..]) == Lower(s)[i..]
  {
  }

  lemma {:induction false} LastDotSameDots(a: string, b: string)
    requires |a| == |b| && forall i :: 0 <= i < |a| ==> (a[i] == '.' <==> b[i] == '.')
    ensures LastDot(a) == LastDot(b)
    decreases |a|
  {
    if a != [] {
      LastDotSameDots(a[..|a| - 1], b[..|b| - 1]);
    }
  }

  lemma {:induction false} LastDotIs(s: string, i: nat)
    requires i < |s| && s[i] == '.' && forall j :: i < j < |s| ==> s[j] != '.'
    ensures LastDot(s) == i
    decreases |s|
  {
    if i < |s| - 1 {
      LastDotIs(s[..|s| - 1], i);
    }
  }

  /** The listing of a set as Python's `repr` prints it, in the iteration order `order`. */
  function SetRepr(order: seq<string>): string {
    "{" + Join(Quoted(order), ", ") + "}"
  }

  /** Each element in single quotes, as `repr` prints a string without quotes in it. */
  function Quoted(order: seq<string>): seq<string> {
    seq(|order|, i requires 0 <= i < |order| => "'" + order[i] + "'")
  }

  /** The set's `repr` is braced, and lists each element quoted, in iteration order, with
      `, ` after every element but the last. */
  lemma SetReprLists(order: seq<string>, i: nat)
    requires i < |order|
    ensures StartsWith(SetRepr(order), "{") && EndsWith(SetRepr(order), "}")
    ensures Placed(SetRepr(order), 1 + JoinOffset(Quoted(order), ", ", i), Quoted(order)[i], ", ",
                   i + 1 < |order|)
    ensures Quoted(order)[i] == "'" + order[i] + "'"
  {
    JoinFramed("{", Quoted(order), ", ", "}", i);
    Framed("{", Join(Quoted(order), ", "), "}", 0, 0);
  }

  /** `order` lists the elements of `s` once each: Python iterates a set of strings in an
      order that depends on the process's hash seed. */
  predicate Enumerates(order: seq<string>, s: set<string>) {
    |order| == |s| && (forall i :: 0 <= i < |order| ==> order[i] in s) &&
    (forall x :: x in s ==> x in order)
  }

  // ---- Chunk filter and answer assembly ---------------------------------------------------

  /** `[s for s in raw_splits if s.page_content.strip()]`. */
  function NonBlank(chunks: seq<string>): (r: seq<string>)
    ensures forall i :: 0 <= i < |r| ==> !IsBlank(r[i])
    ensures forall c :: c in r <==> c in chunks && !IsBlank(c)
    ensures |r| <= |chunks|
    ensures r == [] <==> forall i :: 0 <= i < |chunks| ==> IsBlank(chunks[i])
  {
    if chunks == [] then []
    else
      var rest := NonBlank(chunks[1..]);
      assert forall i :: 1 <= i < |chunks| ==> chunks[i] == chunks[1..][i - 1];
      if IsBlank(chunks[0]) then rest else [chunks[0]] + rest
  }

  /** The filter keeps the original order: it distributes over concatenation. */
  lemma {:induction false} NonBlankAppend(a: seq<string>, b: seq<string>)
    ensures NonBlank(a + b) == NonBlank(a) + NonBlank(b)
    decreases |a|
  {
    if a != [] {
      assert (a + b)[1..] == a[1..] + b;
      NonBlankAppend(a[1..], b);
    } else {
      assert a + b == b;
    }
  }

  /** Chunks that all carry text are kept as they are. */
  lemma {:induction false} NonBlankKeepsText(chunks: seq<string>)
    requires forall i :: 0 <= i < |chunks| ==> !IsBlank(chunks[i])
    ensures NonBlank(chunks) == chunks
    decreases |chunks|
  {
    if chunks != [] {
      NonBlankKeepsText(chunks[1..]);
    }
  }

  const Separator := "\n---\n"
  const AnswerHead := "✅ 从文档 "
  const AnswerMid := " 中检索到以下核心信息：\n"
  const AnswerTail := "\n\n请根据以上数据回答。"

  function AnswerText(fileName: string, passages: seq<string>): string {
    AnswerHead + fileName + AnswerMid + Join(passages, Separator) + AnswerTail
  }

  /** The answer is the fixed head naming the file, the retrieved passages in retriever order,
      and the fixed tail: passage `i` sits at its join offset after the head and is followed
      by the separator unless it is the last one. */
  lemma AnswerLayout(fileName: string, passages: seq<string>, i: nat)
    requires i < |passages|
    ensures StartsWith(AnswerText(fileName, passages), AnswerHead + fileName + AnswerMid)
    ensures EndsWith(AnswerText(fileName, passages), AnswerTail)
    ensures Placed(AnswerText(fileName, passages),
                   |AnswerHead + fileName + AnswerMid| + JoinOffset(passages, Separator, i),
                   passages[i], Separator, i + 1 < |passages|)
  {
    JoinFramed(AnswerHead + fileName + AnswerMid, passages, Separator, AnswerTail, i);
    Framed(AnswerHead + fileName + AnswerMid, Join(passages, Separator), AnswerTail, 0, 0);
  }

  // ---- analyze_local_document ------------------------------------------------------------

  /** The external calls the tool makes, in order: the existence check, the loader (load and
      split), and the embedding, index build and retrieval of the top `k` passages. */
  datatype Call =
    | CheckExists(path: Segments)
    | Load(loader: Loader, path: Segments)
    | Search(chunks: seq<string>, query: string, k: nat)

  datatype DocReply = DocReply(text: string, calls: seq<Call>)

  const TopK := 3

  const InterceptText := "❌ 安全拦截：你试图读取知识库以外的文件！"

  function NotFoundText(fileName: string): string {
    "❌ 找不到文件: " + fileName + "。请先使用 list_kb_files 工具查看当前有哪些文件。"
  }

  function UnsupportedText(ext: string, order: seq<string>): string {
    "❌ 不支持的文件格式: " + ext + "。目前支持 " + SetRepr(order)
  }

  function EmptyText(fileName: string): string {
    "❌ 文件 " + fileName + " 内容为空，或者无法提取有效文本。"
  }

  function DocErrorText(error: string): string {
    "解析或检索文档出错: " + error
  }

  /** `analyze_local_document(file_name, query)`. The file system and the libraries answer
      through `present`, `load` (loader plus splitter) and `search` (embedding, FAISS and the
      retriever); `order` is the iteration order of `ALLOWED_EXTENSIONS` in this process. */
  function AnalyzeDocument(kb: Segments, fileName: string, query: string, order: seq<string>,
                           present: Segments -> bool,
                           load: (Loader, Segments) -> Result<seq<string>>,
                           search: (seq<string>, string, nat) -> Result<seq<string>>): (r: DocReply)
    requires IsNormal(kb) && Enumerates(order, AllowedExtensions)
    ensures '\0' in fileName ==> r == DocReply(DocErrorText(NulByteText), [])
    ensures '\0' !in fileName && !ReadGuardPasses(kb, Resolve(kb, fileName)) ==>
      r == DocReply(InterceptText, [])
    ensures r.calls != [] ==>
      ('\0' !in fileName && r.calls[0] == CheckExists(Resolve(kb, fileName)) &&
       ReadGuardPasses(kb, Resolve(kb, fileName)))
    ensures forall l, p :: Load(l, p) in r.calls ==> present(p) && LoaderFor(Extension(p)) == Some(l)
    ensures forall c :: c in r.calls && c.Search? ==>
      c.k == TopK && c.chunks != [] && (forall i :: 0 <= i < |c.chunks| ==> !IsBlank(c.chunks[i])) &&
      |r.calls| == 3 && r.calls[1].Load?
  {
    if '\0' in fileName then DocReply(DocErrorText(NulByteText), [])
    else
      var target := Resolve(kb, fileName);
      if !ReadGuardPasses(kb, target) then DocReply(InterceptText, [])
      else Open(target, fileName, query, order, present, load, search)
  }

  /** The part of `analyze_local_document` after the read guard has passed `target`. */
  function Open(target: Segments, fileName: string, query: string, order: seq<string>,
                present: Segments -> bool,
                load: (Loader, Segments) -> Result<seq<string>>,
                search: (seq<string>, string, nat) -> Result<seq<string>>): (r: DocReply)
    ensures |r.calls| >= 1 && r.calls[0] == CheckExists(target)
    ensures forall l, p :: Load(l, p) in r.calls ==> present(p) && LoaderFor(Extension(p)) == Some(l)
    ensures forall c :: c in r.calls && c.Search? ==>
      c.k == TopK && c.chunks != [] && (forall i :: 0 <= i < |c.chunks| ==> !IsBlank(c.chunks[i])) &&
      |r.calls| == 3 && r.calls[1].Load?
  {
    if !present(target) then DocReply(NotFoundText(fileName), [CheckExists(target)])
    else
      var ext := Extension(target);
      match LoaderFor(ext)
      case None => DocReply(UnsupportedText(ext, order), [CheckExists(target)])
      case Some(loader) =>
        var rest := Retrieve(target, loader, fileName, query, load, search);
        DocReply(rest.text, [CheckExists(target)] + rest.calls)
  }

  /** Loading, filtering and retrieval, once `loader` has been chosen for `target`. */
  function Retrieve(target: Segments, loader: Loader, fileName: string, query: string,
                    load: (Loader, Segments) -> Result<seq<string>>,
                    search: (seq<string>, string, nat) -> Result<seq<string>>): (r: DocReply)
    ensures |r.calls| >= 1 && r.calls[0] == Load(loader, target)
    ensures forall c :: c in r.calls ==> c == r.calls[0] || c.Search?
    ensures forall c :: c in r.calls && c.Search? ==>
      c.k == TopK && c.chunks != [] && (forall i :: 0 <= i < |c.chunks| ==> !IsBlank(c.chunks[i])) &&
      |r.calls| == 2
  {
    var calls := [Load(loader, target)];
    match load(loader, target)
    case Err(e) => DocReply(DocErrorText(e), calls)
    case Ok(raw) =>
      var splits := NonBlank(raw);
      if splits == [] then DocReply(EmptyText(fileName), calls)
      else
        DocReply(SearchReply(fileName, search(splits, query, TopK)), calls + [Search(splits, query, TopK)])
  }

  /** The reply once the retriever has answered: the assembled answer, or the error text. */
  function SearchReply(fileName: string, retrieved: Result<seq<string>>): string {
    match retrieved
    case Ok(passages) => AnswerText(fileName, passages)
    case Err(e) => DocErrorText(e)
  }

  /** Once the read guard passes, the tool continues with `Open` on the resolved target. */
  lemma AnalyzeOpens(kb: Segments, fileName: string, query: string, order: seq<string>,
                     present: Segments -> bool,
                     load: (Loader, Segments) -> Result<seq<string>>,
                     search: (seq<string>, string, nat) -> Result<seq<string>>)
    requires IsNormal(kb) && Enumerates(order, AllowedExtensions) && '\0' !in fileName
    requires ReadGuardPasses(kb, Resolve(kb, fileName))
    ensures AnalyzeDocument(kb, fileName, query, order, present, load, search)
         == Open(Resolve(kb, fileName), fileName, query, order, present, load, search)
  {
  }

  /** Once a loader is chosen for an existing target, the tool continues with `Retrieve`. */
  lemma OpenLoads(target: Segments, fileName: string, query: string, order: seq<string>,
                  present: Segments -> bool,
                  load: (Loader, Segments) -> Result<seq<string>>,
                  search: (seq<string>, string, nat) -> Result<seq<string>>, loader: Loader)
    requires present(target) && LoaderFor(Extension(target)) == Some(loader)
    ensures var rest := Retrieve(target, loader, fileName, query, load, search);
      Open(target, fileName, query, order, present, load, search)
        == DocReply(rest.text, [CheckExists(target)] + rest.calls)
  {
  }

  lemma RetrieveSearches(target: Segments, loader: Loader, fileName: string, query: string,
                         load: (Loader, Segments) -> Result<seq<string>>,
                         search: (seq<string>, string, nat) -> Result<seq<string>>, raw: seq<string>)
    requires load(loader, target) == Ok(raw) && NonBlank(raw) != []
    ensures Retrieve(target, loader, fileName, query, load, search).calls
         == [Load(loader, target), Search(NonBlank(raw), query, TopK)]
    ensures Retrieve(target, loader, fileName, query, load, search).text
         == SearchReply(fileName, search(NonBlank(raw), query, TopK))
  {
  }

  lemma OpenSearches(target: Segments, fileName: string, query: string, order: seq<string>,
                     present: Segments -> bool,
                     load: (Loader, Segments) -> Result<seq<string>>,
                     search: (seq<string>, string, nat) -> Result<seq<string>>,
                     loader: Loader, raw: seq<string>)
    requires present(target) && LoaderFor(Extension(target)) == Some(loader)
    requires load(loader, target) == Ok(raw) && NonBlank(raw) != []
    ensures var r := Open(target, fileName, query, order, present, load, search);
      |r.calls| == 3 && r.calls[0] == CheckExists(target) && r.calls[1] == Load(loader, target) &&
      r.calls[2] == Search(NonBlank(raw), query, TopK) &&
      r.text == SearchReply(fileName, search(NonBlank(raw), query, TopK))
  {
    OpenLoads(target, fileName, query, order, present, load, search, loader);
    RetrieveSearches(target, loader, fileName, query, load, search, raw);
  }

  /** A target that passes the guard but does not exist gets the not-found reply after the
      existence check alone. */
  lemma AnalyzeNotFound(kb: Segments, fileName: string, query: string, order: seq<string>,
                        present: Segments -> bool,
                        load: (Loader, Segments) -> Result<seq<string>>,
                        search: (seq<string>, string, nat) -> Result<seq<string>>)
    requires IsNormal(kb) && Enumerates(order, AllowedExtensions) && '\0' !in fileName
    requires ReadGuardPasses(kb, Resolve(kb, fileName)) && !present(Resolve(kb, fileName))
    ensures AnalyzeDocument(kb, fileName, query, order, present, load, search)
         == DocReply(NotFoundText(fileName), [CheckExists(Resolve(kb, fileName))])
  {
    AnalyzeOpens(kb, fileName, query, order, present, load, search);
  }

  /** An existing file whose lower-cased suffix is not whitelisted gets the unsupported-format
      reply, naming that suffix and the whitelist, and is never loaded. */
  lemma AnalyzeUnsupported(kb: Segments, fileName: string, query: string, order: seq<string>,
                           present: Segments -> bool,
                           load: (Loader, Segments) -> Result<seq<string>>,
                           search: (seq<string>, string, nat) -> Result<seq<string>>,
                           target: Segments)
    requires IsNormal(kb) && Enumerates(order, AllowedExtensions) && '\0' !in fileName
    requires target == Resolve(kb, fileName) && ReadGuardPasses(kb, target) && present(target)
    requires Extension(target) !in AllowedExtensions
    ensures AnalyzeDocument(kb, fileName, query, order, present, load, search)
         == DocReply(UnsupportedText(Extension(target), order), [CheckExists(target)])
  {
    AnalyzeOpens(kb, fileName, query, order, present, load, search);
  }

  /** A load that raises ends the tool with the error reply, before any search. */
  lemma AnalyzeLoadFails(kb: Segments, fileName: string, query: string, order: seq<string>,
                         present: Segments -> bool,
                         load: (Loader, Segments) -> Result<seq<string>>,
                         search: (seq<string>, string, nat) -> Result<seq<string>>,
                         target: Segments, loader: Loader)
    requires IsNormal(kb) && Enumerates(order, AllowedExtensions) && '\0' !in fileName
    requires target == Resolve(kb, fileName) && ReadGuardPasses(kb, target) && present(target)
    requires LoaderFor(Extension(target)) == Some(loader) && load(loader, target).Err?
    ensures AnalyzeDocument(kb, fileName, query, order, present, load, search)
         == DocReply(DocErrorText(load(loader, target).error), [CheckExists(target), Load(loader, target)])
  {
    AnalyzeOpens(kb, fileName, query, order, present, load, search);
    OpenLoadFails(target, fileName, query, order, present, load, search, loader);
  }

  lemma OpenLoadFails(target: Segments, fileName: string, query: string, order: seq<string>,
                      present: Segments -> bool,
                      load: (Loader, Segments) -> Result<seq<string>>,
                      search: (seq<string>, string, nat) -> Result<seq<string>>, loader: Loader)
    requires present(target) && LoaderFor(Extension(target)) == Some(loader) && load(loader, target).Err?
    ensures Open(target, fileName, query, order, present, load, search)
         == DocReply(DocErrorText(load(loader, target).error), [CheckExists(target), Load(loader, target)])
  {
    OpenLoads(target, fileName, query, order, present, load, search, loader);
    assert [CheckExists(target)] + [Load(loader, target)] == [CheckExists(target), Load(loader, target)];
  }

  /** A document whose chunks are all blank is answered with the empty-content message, and
      no embedding or index step runs. */
  lemma BlankDocumentRejected(kb: Segments, fileName: string, query: string, order: seq<string>,
                              present: Segments -> bool,
                              load: (Loader, Segments) -> Result<seq<string>>,
                              search: (seq<string>, string, nat) -> Result<seq<string>>,
                              target: Segments, loader: Loader, raw: seq<string>)
    requires IsNormal(kb) && Enumerates(order, AllowedExtensions) && '\0' !in fileName
    requires target == Resolve(kb, fileName) && ReadGuardPasses(kb, target) && present(target)
    requires LoaderFor(Extension(target)) == Some(loader) && load(loader, target) == Ok(raw)
    requires forall i :: 0 <= i < |raw| ==> IsBlank(raw[i])
    ensures var r := AnalyzeDocument(kb, fileName, query, order, present, load, search);
      r.text == EmptyText(fileName) &&
      |r.calls| == 2 && r.calls[0] == CheckExists(target) && r.calls[1] == Load(loader, target)
  {
    AnalyzeOpens(kb, fileName, query, order, present, load, search);
    OpenBlank(target, fileName, query, order, present, load, search, loader, raw);
  }

  lemma OpenBlank(target: Segments, fileName: string, query: string, order: seq<string>,
                  present: Segments -> bool,
                  load: (Loader, Segments) -> Result<seq<string>>,
                  search: (seq<string>, string, nat) -> Result<seq<string>>,
                  loader: Loader, raw: seq<string>)
    requires present(target) && LoaderFor(Extension(target)) == Some(loader)
    requires load(loader, target) == Ok(raw) && NonBlank(raw) == []
    ensures var r := Open(target, fileName, query, order, present, load, search);
      r.text == EmptyText(fileName) &&
      |r.calls| == 2 && r.calls[0] == CheckExists(target) && r.calls[1] == Load(loader, target)
  {
    OpenLoads(target, fileName, query, order, present, load, search, loader);
  }

  /** The successful path: the non-blank chunks of the load, exactly, are searched for the
      query with k = 3, and the reply is the answer built from the retrieved passages. A
      search that raises gives the error reply after the same three calls. */
  lemma AnalyzeSearches(kb: Segments, fileName: string, query: string, order: seq<string>,
                        present: Segments -> bool,
                        load: (Loader, Segments) -> Result<seq<string>>,
                        search: (seq<string>, string, nat) -> Result<seq<string>>,
                        target: Segments, loader: Loader, raw: seq<string>)
    requires IsNormal(kb) && Enumerates(order, AllowedExtensions) && '\0' !in fileName
    requires target == Resolve(kb, fileName) && ReadGuardPasses(kb, target) && present(target)
    requires LoaderFor(Extension(target)) == Some(loader) && load(loader, target) == Ok(raw)
    requires exists i :: 0 <= i < |raw| && !IsBlank(raw[i])
    ensures var calls := AnalyzeDocument(kb, fileName, query, order, present, load, search).calls;
      |calls| == 3 && calls[0] == CheckExists(target) && calls[1] == Load(loader, target) &&
      calls[2] == Search(NonBlank(raw), query, TopK)
    ensures AnalyzeDocument(kb, fileName, query, order, present, load, search).text
         == SearchReply(fileName, search(NonBlank(raw), query, TopK))
    ensures var found := search(NonBlank(raw), query, TopK);
      AnalyzeDocument(kb, fileName, query, order, present, load, search).text
        == if found.Ok? then AnswerText(fileName, found.value) else DocErrorText(found.error)
  {
    assert NonBlank(raw) != [];
    AnalyzeOpens(kb, fileName, query, order, present, load, search);
    OpenSearches(target, fileName, query, order, present, load, search, loader, raw);
  }

  /** A path into a sibling such as `knowledge_base2`, which the read guard lets through
      (`SiblingPasses`), reaches the file-system check for that sibling path. */
  lemma SiblingChecked(cwd: Segments, sibling: string, rest: Segments, fileName: string,
                       query: string, order: seq<string>,
                       present: Segments -> bool,
                       load: (Loader, Segments) -> Result<seq<string>>,
                       search: (seq<string>, string, nat) -> Result<seq<string>>)
    requires IsNormal(cwd) && IsNormal([sibling] + rest) && Enumerates(order, AllowedExtensions)
    requires StartsWith(sibling, "knowledge_base") && sibling != "knowledge_base"
    requires fileName == Join([".."] + ([sibling] + rest), "/") && '\0' !in fileName
    ensures var r := AnalyzeDocument(KbDir(cwd), fileName, query, order, present, load, search);
      r.calls != [] && r.calls[0] == CheckExists(cwd + ([sibling] + rest))
  {
    SiblingPasses(cwd, sibling, rest, fileName);
    AnalyzeOpens(KbDir(cwd), fileName, query, order, present, load, search);
  }

  // ---- list_kb_files ---------------------------------------------------------------------

  /** One entry of `KB_DIR.iterdir()`: its name and whether `is_file()` holds for it. */
  datatype Entry = Entry(name: string, isFile: bool)

  predicate Listable(e: Entry) {
    e.isFile && Lower(Suffix(e.name)) in AllowedExtensions
  }

  /** `[f.name for f in KB_DIR.iterdir() if f.is_file() and f.suffix.lower() in ALLOWED_EXTENSIONS]`. */
  function ListedNames(entries: seq<Entry>): (r: seq<string>)
    ensures |r| <= |entries|
    ensures forall n :: n in r <==> exists e :: e in entries && Listable(e) && e.name == n
  {
    if entries == [] then []
    else
      var rest := ListedNames(entries[1..]);
      ListedStep(entries, rest);
      if Listable(entries[0]) then [entries[0].name] + rest else rest
  }

  lemma ListedStep(entries: seq<Entry>, rest: seq<string>)
    requires entries != []
    requires forall n :: n in rest <==> exists e :: e in entries[1..] && Listable(e) && e.name == n
    ensures var r := if Listable(entries[0]) then [entries[0].name] + rest else rest;
      forall n :: n in r <==> exists e :: e in entries && Listable(e) && e.name == n
  {
    assert forall e :: e in entries[1..] ==> e in entries;
    assert forall e :: e in entries ==> e == entries[0] || e in entries[1..];
  }

  /** The listing keeps the iteration order: it distributes over concatenation. */
  lemma {:induction false} ListedAppend(a: seq<Entry>, b: seq<Entry>)
    ensures ListedNames(a + b) == ListedNames(a) + ListedNames(b)
    decreases |a|
  {
    if a != [] {
      assert (a + b)[1..] == a[1..] + b;
      ListedAppend(a[1..], b);
    } else {
      assert a + b == b;
    }
  }

  /** Every listed file is one `analyze_local_document` has a loader for. */
  lemma ListedLoadable(entries: seq<Entry>, n: string)
    requires n in ListedNames(entries)
    ensures LoaderFor(Lower(Suffix(n))).Some?
  {
  }

  const ListHeader := "知识库中当前有以下文件可以读取:\n"
  const ListEmptyText := "当前知识库文件夹为空，没有找到任何支持的文件。"

  function ListErrorText(error: string): string {
    "读取目录出错: " + error
  }

  /** `list_kb_files()` given the answer of `KB_DIR.iterdir()`. */
  function ListKbFiles(listing: Result<seq<Entry>>): (r: string)
    ensures listing.Err? ==> r == ListErrorText(listing.error)
    ensures listing.Ok? && ListedNames(listing.value) == [] ==> r == ListEmptyText
    ensures listing.Ok? && ListedNames(listing.value) != [] ==>
      StartsWith(r, ListHeader) && r[|ListHeader|..] == Join(ListedNames(listing.value), "\n")
  {
    match listing
    case Err(e) => ListErrorText(e)
    case Ok(entries) =>
      var files := ListedNames(entries);
      if files == [] then ListEmptyText
      else
        var r := ListHeader + Join(files, "\n");
        assert r[..|ListHeader|] == ListHeader;
        r
  }

  /** When no listed name contains a line break, the lines after the header are exactly the
      listed names, in order. */
  lemma ListingLines(entries: seq<Entry>)
    requires ListedNames(entries) != []
    requires forall n :: n in ListedNames(entries) ==> '\n' !in n
    ensures var r := ListKbFiles(Ok(entries));
      SplitOn(r[|ListHeader|..], '\n') == ListedNames(entries)
  {
    var names := ListedNames(entries);
    assert forall i :: 0 <= i < |names| ==> names[i] in names;
    SplitOnJoin(names, '\n');
  }
}
