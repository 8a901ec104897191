/** The search pipeline of main.c: the request URL, the write callback that
    streams the response body into a JString, and the schema-checked walk
    over the parsed response that prints one record per result.

    The transport (curl) and the JSON parser (jansson) are not modelled:
    the escaped query, the received chunks, the transport's verdict and the
    parsed document are inputs.
 */
module Search {
  import opened JustString
  import opened JsonTree

  datatype Result<T, E> = Ok(value: T) | Err(error: E)

  // ---------------------------------------------------------------------
  // Building the request URL (fetch_search)
  // ---------------------------------------------------------------------

  /** INT_MAX: the largest value snprintf can return. */
  const IntMax: int := 0x7fff_ffff

  /** A printf format holding one `%s` conversion: the literal text before
      and after it. */
  datatype Format = Format(before: string, after: string)
  {
    /** The format string itself. */
    function Text(): string { before + "%s" + after }

    /** The text printf produces for the argument `arg`. */
    function Apply(arg: string): string { before + arg + after }
  }

  /** The template `API`, whose `%s` is the last thing in it. */
  const Api: Format := Format("http://ajax.googleapis.com/ajax/services/search/web?v=1.0&q=", "")

  datatype UrlError = FormatFailed

  /** snprintf(buf, cap, fmt, arg): the text left in `buf` (at most cap - 1
      characters, NUL not counted) and the return value, which is the length
      of the whole formatted text, or -1 when that exceeds INT_MAX. */
  function Snprintf(cap: nat, fmt: Format, arg: string): (r: (string, int))
    ensures r.1 == (if |fmt.Apply(arg)| > IntMax then -1 else |fmt.Apply(arg)|)
    ensures cap > 0 ==> r.0 <= fmt.Apply(arg) && |r.0| == Min(|fmt.Apply(arg)|, cap - 1)
  {
    var full := fmt.Apply(arg);
    var n := if |full| > IntMax then -1 else |full|;
    var kept := if cap == 0 then 0 else Min(|full|, cap - 1);
    (full[..kept], n)
  }

  /** The URL of fetch_search: a buffer of |escaped| + |API| + 1 bytes, filled
      by snprintf, rejected when the return value is negative or exceeds the
      buffer length.  It fails only when the text is longer than INT_MAX, and
      otherwise is the template with `%s` replaced, never truncated. */
  function BuildUrl(escaped: string): (r: Result<string, UrlError>)
    ensures r.Ok? <==> |Api.Apply(escaped)| <= IntMax
    ensures r.Ok? ==> r.value == Api.Apply(escaped)
    ensures r.Ok? ==> r.value == Api.before + escaped
  {
    var urlLen := |escaped| + |Api.Text()| + 1;
    var (url, n) := Snprintf(urlLen, Api, escaped);
    if n < 0 || n > urlLen then Err(FormatFailed) else Ok(url)
  }

  // ---------------------------------------------------------------------
  // Streaming the response body into the buffer
  // ---------------------------------------------------------------------

  /** The chunks joined in order. */
  function Concat(chunks: seq<seq<byte>>): seq<byte>
  {
    if chunks == [] then [] else Concat(chunks[..|chunks| - 1]) + chunks[|chunks| - 1]
  }

  /** What the buffer's string grows by when each chunk is appended in turn:
      every append starts at the current first zero byte, so a chunk counts
      only up to its own first zero byte. */
  function Folded(chunks: seq<seq<byte>>): (r: seq<byte>)
    ensures 0 !in r
  {
    if chunks == [] then [] else Folded(chunks[..|chunks| - 1]) + CutAtNul(chunks[|chunks| - 1])
  }

  /** For chunks without zero bytes, folding them into the buffer concatenates them. */
  lemma {:induction false} FoldedNulFree(chunks: seq<seq<byte>>)
    requires forall i :: 0 <= i < |chunks| ==> 0 !in chunks[i]
    ensures Folded(chunks) == Concat(chunks)
  {
    if chunks != [] {
      var init := chunks[..|chunks| - 1];
      forall i | 0 <= i < |init| ensures 0 !in init[i] {
        assert init[i] == chunks[i];
      }
      FoldedNulFree(init);
    }
  }

  /** A chunk with a zero byte at `j` and none before it adds only its first
      `j` bytes: the next append starts writing at that zero byte and
      overwrites whatever followed it. */
  lemma FoldedStopsAtNul(chunks: seq<seq<byte>>, c: seq<byte>, j: nat)
    requires j < |c| && c[j] == 0 && 0 !in c[..j]
    ensures Folded(chunks + [c]) == Folded(chunks) + c[..j]
  {
    assert (chunks + [c])[..|chunks|] == chunks;
    CutAtFirstNul(c, j);
  }

  /** Appending "A\0BC" and then "D" leaves the string "AD". */
  lemma EmbeddedNulOverwritten()
    ensures Folded([[65, 0, 66, 67], [68]]) == [65, 68]
  {
    var first: seq<byte> := [65, 0, 66, 67];
    assert [first] == [] + [first];
    FoldedStopsAtNul([], first, 1);
    assert CutAtNul([68]) == [68];
    assert [[65, 0, 66, 67], [68]][..1] == [first];
  }

  /** The index of the first refused allocation, or |grants| when there is none. */
  function FirstRefusal(grants: seq<bool>): (k: nat)
    ensures k <= |grants|
    ensures forall i :: 0 <= i < k ==> grants[i]
    ensures k < |grants| ==> !grants[k]
  {
    if grants == [] then 0
    else if !grants[0] then 0
    else 1 + FirstRefusal(grants[1..])
  }

  /** WriteMemoryCallback: appends size * nmemb bytes of `contents` to the
      buffer and reports that many bytes consumed, whatever the append did. */
  method WriteMemoryCallback(contents: seq<byte>, size: nat, nmemb: nat, userp: JString, granted: bool)
    returns (consumed: nat)
    requires size * nmemb <= |contents|
    requires userp.Valid() && userp.Terminated()
    modifies userp
    ensures consumed == size * nmemb
    ensures !granted ==> userp.released
    ensures granted ==> userp.Valid() && userp.Terminated()
    ensures granted ==> userp.data[..] == old(userp.Contents()) + contents[..size * nmemb] + [0]
    ensures granted ==> userp.size == |old(userp.Contents())| + size * nmemb + 1
    ensures granted ==> userp.Contents() == old(userp.Contents()) + CutAtNul(contents[..size * nmemb])
  {
    var realsize := size * nmemb;
    var ignored := userp.AppendLenString(contents, realsize, granted);
    consumed := realsize;
  }

  /** The transfer: curl hands the received chunks, in order, to the write
      callback (with size 1); `grants[i]` is the allocator's answer for chunk i.
      Because the callback always reports the chunk consumed, curl would go on
      after a refused allocation; the model stops there, at the first chunk
      that would be handed to the released buffer. */
  method Transfer(chunks: seq<seq<byte>>, grants: seq<bool>, sink: JString) returns (delivered: nat)
    requires |grants| == |chunks|
    requires sink.Valid() && sink.Terminated()
    modifies sink
    ensures delivered == (if FirstRefusal(grants) < |chunks| then FirstRefusal(grants) + 1 else |chunks|)
    ensures sink.released <==> FirstRefusal(grants) < |chunks|
    ensures !sink.released ==> sink.Valid() && sink.Terminated()
    ensures !sink.released ==> sink.Contents() == old(sink.Contents()) + Folded(chunks)
    ensures !sink.released && |chunks| > 0 ==> sink.size == sink.data.Length
  {
    delivered := 0;
    while delivered < |chunks|
      invariant 0 <= delivered <= |chunks|
      invariant !sink.released ==> forall i :: 0 <= i < delivered ==> grants[i]
      invariant !sink.released ==> sink.Valid() && sink.Terminated()
      invariant !sink.released ==> sink.Contents() == old(sink.Contents()) + Folded(chunks[..delivered])
      invariant !sink.released && 0 < delivered ==> sink.size == sink.data.Length
      invariant sink.released ==> 0 < delivered && !grants[delivered - 1]
      invariant sink.released ==> forall i :: 0 <= i < delivered - 1 ==> grants[i]
    {
      if sink.released {
        break;
      }
      var chunk := chunks[delivered];
      var consumed := WriteMemoryCallback(chunk, 1, |chunk|, sink, grants[delivered]);
      assert chunks[..delivered + 1][..delivered] == chunks[..delivered];
      assert chunk[..1 * |chunk|] == chunk;
      delivered := delivered + 1;
    }
    assert chunks[..|chunks|] == chunks;
  }

  /** fetch_search: initialise curl, escape the query, build the URL, run the
      transfer into `results`.  Returns 0 only when every step succeeds; a
      failure before the transfer leaves the buffer untouched. */
  method FetchSearch(initOk: bool, escaped: Option<string>, chunks: seq<seq<byte>>, grants: seq<bool>,
                     transportOk: bool, results: JString) returns (rc: int)
    requires |grants| == |chunks|
    requires results.Valid() && results.Terminated()
    modifies results
    ensures var started := initOk && escaped.Some? && BuildUrl(escaped.value).Ok?;
            rc == (if started && transportOk then 0 else -1)
    ensures !(initOk && escaped.Some? && BuildUrl(escaped.value).Ok?) ==>
              results.Valid() && results.data == old(results.data) && results.size == old(results.size)
    ensures initOk && escaped.Some? && BuildUrl(escaped.value).Ok? ==>
              (results.released <==> FirstRefusal(grants) < |chunks|)
    ensures !results.released ==> results.Valid() && results.Terminated()
    ensures initOk && escaped.Some? && BuildUrl(escaped.value).Ok? && !results.released ==>
              results.Contents() == old(results.Contents()) + Folded(chunks)
  {
    if !initOk {
      return -1;
    }
    if escaped.None? {
      return -1;
    }
    var url := BuildUrl(escaped.value);
    if url.Err? {
      return -1;
    }
    var delivered := Transfer(chunks, grants, results);
    if !transportOk {
      return -1;
    }
    rc := 0;
  }

  // ---------------------------------------------------------------------
  // Validating the response and printing the results (main)
  // ---------------------------------------------------------------------

  /** The schema errors main reports, in the order it checks; per-result
      errors carry the 1-based number of the result. */
  datatype SchemaError =
    | RootNotObject
    | StatusNotNumber
    | StatusNot200
    | DataNotObject
    | ResultsNotArray
    | ResultNotObject(result: nat)
    | ContentNotString(result: nat)
    | TitleNotString(result: nat)
    | UrlNotString(result: nat)
  {
    predicate PerResult() {
      ResultNotObject? || ContentNotString? || TitleNotString? || UrlNotString?
    }
  }

  /** One printed block: the 0-based index and the three fields, verbatim. */
  datatype Record = Record(index: nat, url: string, title: string, content: string)

  /** What main has printed, and the error that stopped it (None: success). */
  datatype Report = Report(printed: seq<Record>, failure: Option<SchemaError>)

  /** The shape main demands of the document around the results array. */
  ghost predicate HeaderConforms(root: Json)
  {
    && root.JObject?
    && "responseStatus" in root.fields
    && (root.fields["responseStatus"].JInteger? || root.fields["responseStatus"].JReal?)
    && IntegerValue(root.fields["responseStatus"]) == 200
    && "responseData" in root.fields
    && root.fields["responseData"].JObject?
    && "results" in root.fields["responseData"].fields
    && root.fields["responseData"].fields["results"].JArray?
  }

  /** The shape main demands of one result. */
  ghost predicate ResultConforms(item: Json)
  {
    && item.JObject?
    && "content" in item.fields && item.fields["content"].JString?
    && "title" in item.fields && item.fields["title"].JString?
    && "unescapedUrl" in item.fields && item.fields["unescapedUrl"].JString?
  }

  /** The results array of a document whose header conforms. */
  ghost function ResultsOf(root: Json): seq<Json>
    requires HeaderConforms(root)
  {
    root.fields["responseData"].fields["results"].items
  }

  /** The whole schema: header and every result. */
  ghost predicate Conforms(root: Json)
  {
    HeaderConforms(root) && forall k :: 0 <= k < |ResultsOf(root)| ==> ResultConforms(ResultsOf(root)[k])
  }

  /** The checks main makes before its loop, in order: root object,
      responseStatus a number, equal to 200, responseData an object,
      results an array.  Yields the results array. */
  function Header(root: Json): (r: Result<seq<Json>, SchemaError>)
    ensures r.Ok? <==> HeaderConforms(root)
    ensures r.Ok? ==> r.value == ResultsOf(root)
    ensures r.Err? ==> !r.error.PerResult()
  {
    if !root.JObject? then Err(RootNotObject)
    else
      var status := ObjectGet(root.fields, "responseStatus");
      if !IsNumber(status) then Err(StatusNotNumber)
      else if IntegerValue(status.value) != 200 then Err(StatusNot200)
      else
        var data := ObjectGet(root.fields, "responseData");
        if !IsObject(data) then Err(DataNotObject)
        else
          var results := ObjectGet(data.value.fields, "results");
          if !IsArray(results) then Err(ResultsNotArray)
          else Ok(results.value.items)
  }

  /** The checks main makes on result `i`, in order: an object, then string
      `content`, `title` and `unescapedUrl`; yields the record it prints. */
  function CheckResult(item: Json, i: nat): (r: Result<Record, SchemaError>)
    ensures r.Ok? <==> ResultConforms(item)
    ensures r.Ok? ==> r.value == Record(i, item.fields["unescapedUrl"].text,
                                         item.fields["title"].text, item.fields["content"].text)
    ensures r.Err? ==> r.error.PerResult() && r.error.result == i + 1
  {
    if !item.JObject? then Err(ResultNotObject(i + 1))
    else
      var content := ObjectGet(item.fields, "content");
      if !IsString(content) then Err(ContentNotString(i + 1))
      else
        var title := ObjectGet(item.fields, "title");
        if !IsString(title) then Err(TitleNotString(i + 1))
        else
          var url := ObjectGet(item.fields, "unescapedUrl");
          if !IsString(url) then Err(UrlNotString(i + 1))
          else Ok(Record(i, url.value.text, title.value.text, content.value.text))
  }

  /** Which header error the walk reports: the first check, in main's order,
      that the document fails. */
  lemma HeaderError(root: Json)
    ensures Header(root) == Err(RootNotObject) <==> !root.JObject?
    ensures Header(root) == Err(StatusNotNumber) <==>
              root.JObject? && !("responseStatus" in root.fields &&
                                 (root.fields["responseStatus"].JInteger? || root.fields["responseStatus"].JReal?))
    ensures Header(root) == Err(StatusNot200) <==>
              root.JObject? && "responseStatus" in root.fields &&
              (root.fields["responseStatus"].JInteger? || root.fields["responseStatus"].JReal?) &&
              IntegerValue(root.fields["responseStatus"]) != 200
    ensures Header(root) == Err(DataNotObject) <==>
              root.JObject? && "responseStatus" in root.fields &&
              (root.fields["responseStatus"].JInteger? || root.fields["responseStatus"].JReal?) &&
              IntegerValue(root.fields["responseStatus"]) == 200 &&
              !("responseData" in root.fields && root.fields["responseData"].JObject?)
    ensures Header(root) == Err(ResultsNotArray) <==>
              root.JObject? && "responseStatus" in root.fields &&
              (root.fields["responseStatus"].JInteger? || root.fields["responseStatus"].JReal?) &&
              IntegerValue(root.fields["responseStatus"]) == 200 &&
              "responseData" in root.fields && root.fields["responseData"].JObject? &&
              !("results" in root.fields["responseData"].fields &&
                root.fields["responseData"].fields["results"].JArray?)
  {
  }

  /** Which error a result draws: the first of its checks, in the order
      object, content, title, unescapedUrl, that it fails. */
  lemma ResultError(item: Json, i: nat)
    ensures CheckResult(item, i) == Err(ResultNotObject(i + 1)) <==> !item.JObject?
    ensures CheckResult(item, i) == Err(ContentNotString(i + 1)) <==>
              item.JObject? && !("content" in item.fields && item.fields["content"].JString?)
    ensures CheckResult(item, i) == Err(TitleNotString(i + 1)) <==>
              item.JObject? && "content" in item.fields && item.fields["content"].JString? &&
              !("title" in item.fields && item.fields["title"].JString?)
    ensures CheckResult(item, i) == Err(UrlNotString(i + 1)) <==>
              item.JObject? && "content" in item.fields && item.fields["content"].JString? &&
              "title" in item.fields && item.fields["title"].JString? &&
              !("unescapedUrl" in item.fields && item.fields["unescapedUrl"].JString?)
  {
  }

  /** The loop from element `from` on: print each conforming result, stop at
      the first that does not. */
  function Scan(items: seq<Json>, from: nat): (r: Report)
    requires from <= |items|
    ensures from + |r.printed| <= |items|
    ensures forall k :: 0 <= k < |r.printed| ==> r.printed[k].index == from + k
    ensures r.failure.None? <==> from + |r.printed| == |items|
    ensures r.failure.Some? ==> r.failure.value.PerResult() && r.failure.value.result == from + |r.printed| + 1
    decreases |items| - from
  {
    if from == |items| then Report([], None)
    else match CheckResult(items[from], from)
      case Err(e) => Report([], Some(e))
      case Ok(rec) =>
        var rest := Scan(items, from + 1);
        Report([rec] + rest.printed, rest.failure)
  }

  /** The whole walk: the header checks, then the loop over the results. */
  function Extract(root: Json): (r: Report)
    ensures r.failure.None? ==> HeaderConforms(root) && |r.printed| == |ResultsOf(root)|
    ensures forall k :: 0 <= k < |r.printed| ==> r.printed[k].index == k
    ensures r.failure.Some? && r.failure.value.PerResult() ==> r.failure.value.result == |r.printed| + 1
    ensures r.failure.Some? && !r.failure.value.PerResult() ==> r.printed == []
  {
    match Header(root)
    case Err(e) => Report([], Some(e))
    case Ok(items) => Scan(items, 0)
  }

  /** The loop prints exactly the longest run of conforming results from
      `from`, each with its own index; it succeeds when that run reaches the
      end, and otherwise fails with the error of the first element after it. */
  lemma {:induction false} ScanMeaning(items: seq<Json>, from: nat)
    requires from <= |items|
    ensures var r := Scan(items, from);
      && |r.printed| <= |items| - from
      && (forall k :: 0 <= k < |r.printed| ==> CheckResult(items[from + k], from + k) == Ok(r.printed[k]))
      && (r.failure.None? <==> |r.printed| == |items| - from)
      && (r.failure.Some? ==>
            CheckResult(items[from + |r.printed|], from + |r.printed|) == Err(r.failure.value))
    decreases |items| - from
  {
    if from < |items| && CheckResult(items[from], from).Ok? {
      ScanMeaning(items, from + 1);
      var rest := Scan(items, from + 1);
      var r := Scan(items, from);
      assert r.printed == [CheckResult(items[from], from).value] + rest.printed;
      forall k | 0 <= k < |r.printed|
        ensures CheckResult(items[from + k], from + k) == Ok(r.printed[k])
      {
        if k > 0 {
          assert r.printed[k] == rest.printed[k - 1];
          assert from + k == (from + 1) + (k - 1);
        }
      }
    }
  }

  /** A document passes the walk exactly when it conforms to the schema; then
      one record is printed per result, in array order, with its 0-based
      index and its fields copied verbatim.  A header error prints nothing;
      a result error names result |printed| + 1 and follows |printed| records. */
  lemma ExtractMeaning(root: Json)
    ensures var r := Extract(root);
      && (r.failure.None? <==> Conforms(root))
      && (Conforms(root) ==> |r.printed| == |ResultsOf(root)|)
      && (Conforms(root) ==> forall k :: 0 <= k < |r.printed| ==>
            var item := ResultsOf(root)[k];
            r.printed[k] == Record(k, item.fields["unescapedUrl"].text,
                                   item.fields["title"].text, item.fields["content"].text))
      && (!HeaderConforms(root) ==> r.printed == [] && r.failure.Some? && !r.failure.value.PerResult())
      && (HeaderConforms(root) && r.failure.Some? ==>
            && |r.printed| < |ResultsOf(root)|
            && r.failure.value.PerResult()
            && r.failure.value.result == |r.printed| + 1
            && !ResultConforms(ResultsOf(root)[|r.printed|])
            && (forall k :: 0 <= k < |r.printed| ==> ResultConforms(ResultsOf(root)[k]))
            && (forall k :: 0 <= k < |r.printed| ==>
                  var item := ResultsOf(root)[k];
                  r.printed[k] == Record(k, item.fields["unescapedUrl"].text,
                                         item.fields["title"].text, item.fields["content"].text)))
  {
    if HeaderConforms(root) {
      var items := ResultsOf(root);
      ScanMeaning(items, 0);
      var r := Scan(items, 0);
      forall k | 0 <= k < |r.printed| ensures ResultConforms(items[k]) {
        assert CheckResult(items[0 + k], 0 + k) == Ok(r.printed[k]);
      }
      if r.failure.Some? {
        assert CheckResult(items[0 + |r.printed|], 0 + |r.printed|).Err?;
      }
    }
  }

  /** No element after the failing one is examined: two arrays that agree up
      to and including it give the same report. */
  lemma {:induction false} ScanStopsAtFailure(items: seq<Json>, other: seq<Json>, from: nat)
    requires from <= |items|
    requires Scan(items, from).failure.Some?
    requires from + |Scan(items, from).printed| < |items|
    requires from + |Scan(items, from).printed| < |other|
    requires forall k :: from <= k <= from + |Scan(items, from).printed| ==> other[k] == items[k]
    ensures Scan(other, from) == Scan(items, from)
    decreases |items| - from
  {
    ScanMeaning(items, from);
    if CheckResult(items[from], from).Ok? {
      ScanStopsAtFailure(items, other, from + 1);
    }
  }

  /** responseStatus is judged before responseData is looked at: when the
      status is missing, not a number, or not 200, the walk prints nothing and
      reports that, whatever responseData holds. */
  lemma StatusDecidedBeforeData(fields: map<string, Json>, data: Json)
    requires !(IsNumber(ObjectGet(fields, "responseStatus")) &&
               IntegerValue(fields["responseStatus"]) == 200)
    ensures Extract(JObject(fields["responseData" := data])) == Extract(JObject(fields))
    ensures Extract(JObject(fields)).printed == []
    ensures Extract(JObject(fields)).failure ==
              Some(if IsNumber(ObjectGet(fields, "responseStatus")) then StatusNot200 else StatusNotNumber)
  {
  }

  /** The walk main performs over the parsed document: the header checks,
      then a loop that prints each result as soon as it has been checked and
      stops at the first that fails. */
  method Walk(root: Json) returns (printed: seq<Record>, failure: Option<SchemaError>)
    ensures Report(printed, failure) == Extract(root)
  {
    var header := Header(root);
    if header.Err? {
      return [], Some(header.error);
    }
    var items := header.value;
    printed := [];
    var i := 0;
    while i < |items|
      invariant 0 <= i <= |items| && |printed| == i
      invariant Scan(items, 0) == Report(printed + Scan(items, i).printed, Scan(items, i).failure)
    {
      var checked := CheckResult(items[i], i);
      if checked.Err? {
        return printed, Some(checked.error);
      }
      assert printed + ([checked.value] + Scan(items, i + 1).printed)
          == (printed + [checked.value]) + Scan(items, i + 1).printed;
      printed := printed + [checked.value];
      i := i + 1;
    }
    failure := None;
  }

  /** Why main fails: the message it writes to standard error. */
  datatype Diagnostic =
    | OutOfMemory              // new_string returned NULL
    | FetchFailed              // fetch_search reported an error
    | SyntaxError              // json_loads rejected the text
    | Schema(error: SchemaError)

  /** How main ends: success, failure with its diagnostic, or undefined
      behaviour, where it goes on to read or to free again a buffer that a
      refused realloc released. */
  datatype Exit = ExitSuccess | ExitFailure(reason: Diagnostic) | Undefined

  /** main for one query: new_string, fetch_search into it, json_loads on its
      text (`parse`, not modelled), the walk, free_string.  `printed` is every
      record written to standard output, including those printed before a
      failing result. */
  method RunSearch(recordGranted: bool, dataGranted: bool, initOk: bool, escaped: Option<string>,
                   chunks: seq<seq<byte>>, grants: seq<bool>, transportOk: bool,
                   parse: seq<byte> -> Option<Json>)
    returns (exit: Exit, printed: seq<Record>)
    requires |grants| == |chunks|
    ensures exit == ExitFailure(OutOfMemory) <==> !(recordGranted && dataGranted)
    ensures var buffered := recordGranted && dataGranted;
            var started := initOk && escaped.Some? && BuildUrl(escaped.value).Ok?;
            && (exit == Undefined <==> buffered && started && FirstRefusal(grants) < |chunks|)
            && (exit == ExitFailure(FetchFailed) <==>
                  buffered && !(started && transportOk) && !(started && FirstRefusal(grants) < |chunks|))
    ensures var fetched := recordGranted && dataGranted && initOk && escaped.Some? && BuildUrl(escaped.value).Ok?
                           && transportOk && FirstRefusal(grants) == |chunks|;
            && (exit == ExitFailure(SyntaxError) <==> fetched && parse(Folded(chunks)).None?)
            && (!(fetched && parse(Folded(chunks)).Some?) ==> printed == [])
    ensures var parsed := recordGranted && dataGranted && initOk && escaped.Some? && BuildUrl(escaped.value).Ok?
                          && transportOk && FirstRefusal(grants) == |chunks| && parse(Folded(chunks)).Some?;
            && (parsed ==> printed == Extract(parse(Folded(chunks)).value).printed)
            && (parsed ==> exit == match Extract(parse(Folded(chunks)).value).failure
                                   case None => ExitSuccess
                                   case Some(e) => ExitFailure(Schema(e)))
            && (exit == ExitSuccess <==> parsed && Conforms(parse(Folded(chunks)).value))
  {
    var results := JString.NewString(recordGranted, dataGranted);
    if results == null {
      return ExitFailure(OutOfMemory), [];
    }
    var n := FetchSearch(initOk, escaped, chunks, grants, transportOk, results);
    if results.released {
      // main would now read the released buffer (get_string) or free it a second time
      return Undefined, [];
    }
    if n < 0 {
      results.FreeString();
      return ExitFailure(FetchFailed), [];
    }
    var view := results.GetString();
    assert view[..Strlen(view)] == results.Contents() == Folded(chunks);
    var doc := parse(view[..Strlen(view)]);
    if doc.None? {
      results.FreeString();
      return ExitFailure(SyntaxError), [];
    }
    var failure;
    printed, failure := Walk(doc.value);
    ExtractMeaning(doc.value);
    exit := if failure.None? then ExitSuccess else ExitFailure(Schema(failure.value));
    results.FreeString();
  }

  /** A one-result response in the API's shape: printed as record 0 with its
      url, title and content, and success. */
  lemma GithubExample()
    ensures Extract(JObject(map[
              "responseStatus" := JInteger(200),
              "responseData" := JObject(map[
                "results" := JArray([JObject(map[
                  "title" := JString("GitHub"),
                  "content" := JString("Where the world builds software"),
                  "unescapedUrl" := JString("https://github.com")])])])]))
            == Report([Record(0, "https://github.com", "GitHub", "Where the world builds software")], None)
  {
  }
}
