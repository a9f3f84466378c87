/**
 * From the model's raw reply to typed review comments: strip the first
 * reasoning block, parse every element of the reply's JSON array on its own
 * (dropping those that are not comments), and aggregate the comments of all
 * files into the two-level triage order.
 */
module Comment {
  import opened Wrappers
  import opened Text
  import opened Json
  import opened ReviewTypes
  import opened StableSort
  import JsMap

  /* ---------- stripReasoning ---------- */

  function OpenTag(tag: string): string { "<" + tag + ">" }

  function CloseTag(tag: string): string { "</" + tag + ">" }

  /**
   * `p` and `q` delimit what the regex `<tag>[\s\S]*?</tag>` matches first in
   * `t`: the first opening tag, and the nearest closing tag after it.
   */
  ghost predicate FirstBlock(t: string, tag: string, p: nat, q: nat) {
    && OccursAt(t, OpenTag(tag), p)
    && (forall k :: 0 <= k < p ==> !OccursAt(t, OpenTag(tag), k))
    && p + |OpenTag(tag)| <= q
    && OccursAt(t, CloseTag(tag), q)
    && (forall k :: p + |OpenTag(tag)| <= k < q ==> !OccursAt(t, CloseTag(tag), k))
  }

  /** No closing tag follows any opening tag: the regex finds no match in `t`. */
  ghost predicate NoBlock(t: string, tag: string) {
    forall p: nat, q: nat :: OccursAt(t, OpenTag(tag), p) && p + |OpenTag(tag)| <= q ==> !OccursAt(t, CloseTag(tag), q)
  }

  /** `t.replace(/open[\s\S]*?close/, '')` for literal `open` and `close`. */
  function CutFirstBlock(t: string, open: string, close: string): (r: string)
    ensures exists i, j :: 0 <= i <= j <= |t| && r == t[..i] + t[j..]
    ensures FindFrom(t, open, 0).None? ==> r == t
  {
    match FindFrom(t, open, 0)
    case None => assert t == t[..0] + t[0..]; t
    case Some(p) =>
      match FindFrom(t, close, p + |open|)
      case None => assert t == t[..0] + t[0..]; t
      case Some(q) => t[..p] + t[q + |close|..]
  }

  /** `response.trim().replace(/<tag>[\s\S]*?<\/tag>/, '')`. */
  function StripReasoning(response: string, tag: string): (r: string)
    ensures exists i, j :: 0 <= i <= j <= |Trim(response)| && r == Trim(response)[..i] + Trim(response)[j..]
  {
    CutFirstBlock(Trim(response), OpenTag(tag), CloseTag(tag))
  }

  /** With a complete block, exactly the first block is cut out of the trimmed reply. */
  lemma StripRemovesFirstBlock(response: string, tag: string, p: nat, q: nat)
    requires FirstBlock(Trim(response), tag, p, q)
    ensures StripReasoning(response, tag) == Trim(response)[..p] + Trim(response)[q + |CloseTag(tag)|..]
  {
    CutAtBlock(Trim(response), OpenTag(tag), CloseTag(tag), p, q);
  }

  /** The first `open` and the nearest `close` after it delimit what is cut. */
  lemma CutAtBlock(t: string, open: string, close: string, p: nat, q: nat)
    requires OccursAt(t, open, p) && forall k :: 0 <= k < p ==> !OccursAt(t, open, k)
    requires p + |open| <= q && OccursAt(t, close, q)
    requires forall k :: p + |open| <= k < q ==> !OccursAt(t, close, k)
    ensures CutFirstBlock(t, open, close) == t[..p] + t[q + |close|..]
  {
    FindFromFirst(t, open, 0, p);
    FindFromFirst(t, close, p + |open|, q);
  }

  /** Without a complete block the reply is only trimmed. */
  lemma StripWithoutBlock(response: string, tag: string)
    requires NoBlock(Trim(response), tag)
    ensures StripReasoning(response, tag) == Trim(response)
  {
    var t := Trim(response);
    match FindFrom(t, OpenTag(tag), 0)
    case None =>
    case Some(p) =>
      match FindFrom(t, CloseTag(tag), p + |OpenTag(tag)|)
      case None =>
      case Some(q) =>
        assert false;
  }

  /** The two cases above are the only ones: a reply either holds a complete block or none. */
  lemma StripCases(response: string, tag: string)
    ensures NoBlock(Trim(response), tag) || exists p: nat, q: nat :: FirstBlock(Trim(response), tag, p, q)
  {
    var t := Trim(response);
    if !NoBlock(t, tag) {
      var p0: nat, q0: nat :| OccursAt(t, OpenTag(tag), p0) && p0 + |OpenTag(tag)| <= q0 && OccursAt(t, CloseTag(tag), q0);
      var p := FindFrom(t, OpenTag(tag), 0).value;
      var q := FindFrom(t, CloseTag(tag), p + |OpenTag(tag)|).value;
      assert FirstBlock(t, tag, p, q);
    }
  }

  /* ---------- parseComment ---------- */

  /** Why `parseComment` throws. */
  datatype ParseError = ExpectedComment | MissingFile | MissingComment

  /** The shape `parseComment` accepts: an object with a non-empty string `file` and a string `comment`. */
  predicate CommentShaped(v: Json) {
    && v.JObject?
    && GetString(v, "file").Some? && GetString(v, "file").value != []
    && GetString(v, "comment").Some?
  }

  /** A `number` field kept only when it is positive, as the adjustment's line range is. */
  function PositiveNumber(v: Json, key: string): (r: Option<real>)
    ensures r.Some? <==> GetNumber(v, key).Some? && GetNumber(v, key).value > 0.0
    ensures r.Some? ==> r == GetNumber(v, key)
  {
    match GetNumber(v, key)
    case Some(n) => if n > 0.0 then Some(n) else None
    case None => None
  }

  /**
   * The optional adjustment: kept when `proposedAdjustment` is an object with
   * string `originalCode`, `adjustedCode` and `description`, dropped otherwise.
   */
  function ParseAdjustment(v: Json): (r: Option<ProposedAdjustment>)
    ensures r.Some? <==>
      && Get(v, "proposedAdjustment").Some? && Truthy(Get(v, "proposedAdjustment").value)
      && IsObjectType(Get(v, "proposedAdjustment").value)
      && GetString(Get(v, "proposedAdjustment").value, "originalCode").Some?
      && GetString(Get(v, "proposedAdjustment").value, "adjustedCode").Some?
      && GetString(Get(v, "proposedAdjustment").value, "description").Some?
    ensures r.Some? ==> var a := Get(v, "proposedAdjustment").value;
      && GetString(a, "originalCode") == Some(r.value.originalCode)
      && GetString(a, "adjustedCode") == Some(r.value.adjustedCode)
      && GetString(a, "description") == Some(r.value.description)
      && (r.value.startLine.Some? <==> GetNumber(a, "startLine").Some? && GetNumber(a, "startLine").value > 0.0)
      && (r.value.startLine.Some? ==> r.value.startLine == GetNumber(a, "startLine"))
      && (r.value.endLine.Some? <==> GetNumber(a, "endLine").Some? && GetNumber(a, "endLine").value > 0.0)
      && (r.value.endLine.Some? ==> r.value.endLine == GetNumber(a, "endLine"))
  {
    match Get(v, "proposedAdjustment")
    case None => None
    case Some(a) =>
      if Truthy(a) && IsObjectType(a)
         && GetString(a, "originalCode").Some?
         && GetString(a, "adjustedCode").Some?
         && GetString(a, "description").Some?
      then
        Some(ProposedAdjustment(
          GetString(a, "originalCode").value,
          GetString(a, "adjustedCode").value,
          GetString(a, "description").value,
          PositiveNumber(a, "startLine"),
          PositiveNumber(a, "endLine")))
      else None
  }

  /** `line`: the given number when it is not negative, else the fallback 1. */
  function CoerceLine(v: Json): (r: real)
    ensures r >= 0.0
    ensures GetNumber(v, "line") == Some(r)
            || (r == 1.0 && (GetNumber(v, "line").None? || GetNumber(v, "line").value < 0.0))
  {
    match GetNumber(v, "line")
    case Some(n) => if n >= 0.0 then n else 1.0
    case None => 1.0
  }

  /** `severity`: the given number when it lies in [1, 5], else the fallback 1. */
  function CoerceSeverity(v: Json): (r: real)
    ensures 1.0 <= r <= 5.0
    ensures GetNumber(v, "severity") == Some(r)
            || (r == 1.0 && (GetNumber(v, "severity").None? || !(1.0 <= GetNumber(v, "severity").value <= 5.0)))
  {
    match GetNumber(v, "severity")
    case Some(n) => if 1.0 <= n <= 5.0 then n else 1.0
    case None => 1.0
  }

  /**
   * What a parsed comment always looks like: a non-empty file, a trimmed
   * comment, a line that is not negative, a severity in [1, 5], no prompt type,
   * and an adjustment whose line range, if any, is positive.
   */
  predicate Canonical(c: ReviewComment) {
    && c.file != []
    && (c.comment == [] || (!IsSpace(c.comment[0]) && !IsSpace(c.comment[|c.comment| - 1])))
    && c.line >= 0.0
    && 1.0 <= c.severity <= 5.0
    && c.promptType.None?
    && (c.proposedAdjustment.Some? ==>
          && (c.proposedAdjustment.value.startLine.Some? ==> c.proposedAdjustment.value.startLine.value > 0.0)
          && (c.proposedAdjustment.value.endLine.Some? ==> c.proposedAdjustment.value.endLine.value > 0.0))
  }

  /** `parseComment`: validates one element of the reply's array, or says why it throws. */
  function ParseComment(v: Json): (r: Result<ReviewComment, ParseError>)
    ensures r.Ok? <==> CommentShaped(v)
    ensures r == Err(ExpectedComment) <==> !(v.JArray? || v.JObject?)
    ensures r == Err(MissingComment) <==> v.JObject? && GetString(v, "file").Some?
                                          && GetString(v, "file").value != [] && GetString(v, "comment").None?
    ensures r.Ok? ==> r.value.file == GetString(v, "file").value
    ensures r.Ok? ==> r.value.comment == Trim(GetString(v, "comment").value)
    ensures r.Ok? ==> Canonical(r.value)
  {
    if !Truthy(v) || !IsObjectType(v) then Err(ExpectedComment)
    else if GetString(v, "file").None? || GetString(v, "file").value == [] then Err(MissingFile)
    else if GetString(v, "comment").None? then Err(MissingComment)
    else
      Ok(ReviewComment(
        GetString(v, "file").value,
        Trim(GetString(v, "comment").value),
        CoerceLine(v),
        CoerceSeverity(v),
        None,
        ParseAdjustment(v)))
  }

  /** The `line` rule: an explicit 0 survives; a missing, negative or non-numeric line becomes 1. */
  lemma ParsedLine(v: Json)
    requires CommentShaped(v)
    ensures GetNumber(v, "line").Some? && GetNumber(v, "line").value >= 0.0 ==>
              ParseComment(v).value.line == GetNumber(v, "line").value
    ensures GetNumber(v, "line") == Some(0.0) ==> ParseComment(v).value.line == 0.0
    ensures GetNumber(v, "line").None? || GetNumber(v, "line").value < 0.0 ==>
              ParseComment(v).value.line == 1.0
  {
  }

  /** The `severity` rule: a number in [1, 5] is kept, fractions included; anything else becomes 1. */
  lemma ParsedSeverity(v: Json)
    requires CommentShaped(v)
    ensures GetNumber(v, "severity").Some? && 1.0 <= GetNumber(v, "severity").value <= 5.0 ==>
              ParseComment(v).value.severity == GetNumber(v, "severity").value
    ensures GetNumber(v, "severity").None? || !(1.0 <= GetNumber(v, "severity").value <= 5.0) ==>
              ParseComment(v).value.severity == 1.0
  {
  }

  /**
   * The adjustment rule: a malformed adjustment is dropped without rejecting the
   * comment, and a well-formed one keeps its three strings and its positive lines.
   */
  lemma ParsedAdjustment(v: Json)
    requires CommentShaped(v)
    ensures var a := Get(v, "proposedAdjustment");
            ParseComment(v).value.proposedAdjustment.Some? <==>
              a.Some? && a.value.JObject?
              && GetString(a.value, "originalCode").Some?
              && GetString(a.value, "adjustedCode").Some?
              && GetString(a.value, "description").Some?
    ensures var a := Get(v, "proposedAdjustment");
            var adj := ParseComment(v).value.proposedAdjustment;
            adj.Some? ==>
              && adj.value.originalCode == GetString(a.value, "originalCode").value
              && adj.value.adjustedCode == GetString(a.value, "adjustedCode").value
              && adj.value.description == GetString(a.value, "description").value
              && (adj.value.startLine.Some? <==> GetNumber(a.value, "startLine").Some? && GetNumber(a.value, "startLine").value > 0.0)
              && (adj.value.endLine.Some? <==> GetNumber(a.value, "endLine").Some? && GetNumber(a.value, "endLine").value > 0.0)
  {
  }

  /** A comment written back as the JSON object the prompt asks the model for. */
  function Encode(c: ReviewComment): Json {
    var base := map[
      "file" := JString(c.file),
      "comment" := JString(c.comment),
      "line" := JNumber(c.line),
      "severity" := JNumber(c.severity)];
    match c.proposedAdjustment
    case None => JObject(base)
    case Some(a) => JObject(base["proposedAdjustment" := EncodeAdjustment(a)])
  }

  function EncodeAdjustment(a: ProposedAdjustment): Json {
    var fields := map[
      "originalCode" := JString(a.originalCode),
      "adjustedCode" := JString(a.adjustedCode),
      "description" := JString(a.description)];
    var withStart := if a.startLine.Some? then fields["startLine" := JNumber(a.startLine.value)] else fields;
    JObject(if a.endLine.Some? then withStart["endLine" := JNumber(a.endLine.value)] else withStart)
  }

  lemma EncodeFields(c: ReviewComment)
    requires Canonical(c)
    ensures CommentShaped(Encode(c))
    ensures CoerceLine(Encode(c)) == c.line
    ensures CoerceSeverity(Encode(c)) == c.severity
    ensures GetString(Encode(c), "file") == Some(c.file)
    ensures GetString(Encode(c), "comment") == Some(c.comment)
    ensures GetNumber(Encode(c), "line") == Some(c.line)
    ensures GetNumber(Encode(c), "severity") == Some(c.severity)
    ensures c.proposedAdjustment.None? ==> Get(Encode(c), "proposedAdjustment").None?
    ensures c.proposedAdjustment.Some? ==>
              Get(Encode(c), "proposedAdjustment") == Some(EncodeAdjustment(c.proposedAdjustment.value))
  {
    assert "file" != "comment" && "file" != "line" && "file" != "severity" && "file" != "proposedAdjustment";
    assert "comment" != "line" && "comment" != "severity" && "comment" != "proposedAdjustment";
    assert "line" != "severity" && "line" != "proposedAdjustment" && "severity" != "proposedAdjustment";
  }

  lemma EncodeAdjustmentFields(a: ProposedAdjustment)
    requires a.startLine.Some? ==> a.startLine.value > 0.0
    requires a.endLine.Some? ==> a.endLine.value > 0.0
    ensures var e := EncodeAdjustment(a);
            && e.JObject?
            && GetString(e, "originalCode") == Some(a.originalCode)
            && GetString(e, "adjustedCode") == Some(a.adjustedCode)
            && GetString(e, "description") == Some(a.description)
            && PositiveNumber(e, "startLine") == a.startLine
            && PositiveNumber(e, "endLine") == a.endLine
  {
    assert "originalCode" != "adjustedCode" && "originalCode" != "description";
    assert "adjustedCode" != "description";
    assert "startLine" != "originalCode" && "startLine" != "adjustedCode" && "startLine" != "description";
    assert "endLine" != "originalCode" && "endLine" != "adjustedCode" && "endLine" != "description";
    assert "startLine" != "endLine";
  }

  lemma EncodeAdjustmentParsed(c: ReviewComment)
    requires Canonical(c)
    ensures ParseAdjustment(Encode(c)) == c.proposedAdjustment
  {
    EncodeFields(c);
    if c.proposedAdjustment.Some? {
      EncodeAdjustmentFields(c.proposedAdjustment.value);
    }
  }

  /** A comment-shaped value whose fields are those of `c` parses to `c`. */
  lemma ParseOfFields(c: ReviewComment, v: Json)
    requires Canonical(c) && CommentShaped(v) && Trim(c.comment) == c.comment
    requires GetString(v, "file") == Some(c.file) && GetString(v, "comment") == Some(c.comment)
    requires CoerceLine(v) == c.line && CoerceSeverity(v) == c.severity
    requires ParseAdjustment(v) == c.proposedAdjustment
    ensures ParseComment(v) == Ok(c)
  {
  }

  /** Every canonical comment survives a round trip through its JSON form unchanged. */
  lemma ParseEncode(c: ReviewComment)
    requires Canonical(c)
    ensures ParseComment(Encode(c)) == Ok(c)
  {
    TrimOfTrimmed(c.comment);
    EncodeFields(c);
    EncodeAdjustmentParsed(c);
    ParseOfFields(c, Encode(c));
  }

  /** Parsing is onto the canonical comments and, on them, inverse to encoding. */
  lemma EncodeParse(v: Json)
    requires ParseComment(v).Ok?
    ensures Canonical(ParseComment(v).value)
    ensures ParseComment(Encode(ParseComment(v).value)) == ParseComment(v)
  {
    ParseEncode(ParseComment(v).value);
  }

  /** Every parsed comment meets the bounds the record type documents, and tighter ones. */
  lemma ParsedIsDocumented(v: Json)
    requires ParseComment(v).Ok?
    ensures Documented(ParseComment(v).value)
    ensures 1.0 <= ParseComment(v).value.severity
  {
  }

  /* ---------- parseResponse ---------- */

  /** The comments of the elements that parse, in order; an element that throws is skipped. */
  function ParseAll(items: seq<Json>): (r: seq<ReviewComment>)
    ensures |r| <= |items|
  {
    if items == [] then []
    else
      var last := ParseComment(items[|items| - 1]);
      ParseAll(items[..|items| - 1]) + (if last.Ok? then [last.value] else [])
  }

  /** The indices of the elements of `s` that satisfy `ok`, in increasing order. */
  function Kept<T>(s: seq<T>, ok: T -> bool): seq<nat> {
    if s == [] then []
    else Kept(s[..|s| - 1], ok) + (if ok(s[|s| - 1]) then [|s| - 1] else [])
  }

  lemma {:induction false} KeptBounded<T>(s: seq<T>, ok: T -> bool)
    ensures forall k :: 0 <= k < |Kept(s, ok)| ==> Kept(s, ok)[k] < |s|
  {
    if s != [] {
      KeptBounded(s[..|s| - 1], ok);
    }
  }

  /** An index is kept exactly when its element satisfies `ok`. */
  lemma {:induction false} KeptComplete<T>(s: seq<T>, ok: T -> bool)
    ensures forall i :: 0 <= i < |s| ==> (i in Kept(s, ok) <==> ok(s[i]))
  {
    if s != [] {
      var n := |s| - 1;
      var front := s[..n];
      KeptComplete(front, ok);
      KeptBounded(front, ok);
      assert n !in Kept(front, ok);
      forall i | 0 <= i < n ensures s[i] == front[i] {
      }
    }
  }

  /** The kept indices increase. */
  lemma {:induction false} KeptIncrease<T>(s: seq<T>, ok: T -> bool)
    ensures forall k, l :: 0 <= k < l < |Kept(s, ok)| ==> Kept(s, ok)[k] < Kept(s, ok)[l]
  {
    if s != [] {
      KeptIncrease(s[..|s| - 1], ok);
      KeptBounded(s[..|s| - 1], ok);
    }
  }

  /** `parseComment` returns instead of throwing. */
  predicate Accepted(v: Json) {
    ParseComment(v).Ok?
  }

  /** The indices of the elements that parse, in increasing order. */
  function Survivors(items: seq<Json>): seq<nat> {
    Kept(items, Accepted)
  }

  lemma {:induction false} SurvivorsLength(items: seq<Json>)
    ensures |Survivors(items)| == |ParseAll(items)|
    ensures forall k :: 0 <= k < |Survivors(items)| ==> Survivors(items)[k] < |items|
  {
    if items != [] {
      SurvivorsLength(items[..|items| - 1]);
    }
  }

  /** The k-th comment returned is the parse of the k-th surviving element. */
  lemma {:induction false} SurvivorsParse(items: seq<Json>)
    ensures |Survivors(items)| == |ParseAll(items)|
    ensures forall k :: 0 <= k < |Survivors(items)| ==>
              Survivors(items)[k] < |items| && ParseComment(items[Survivors(items)[k]]) == Ok(ParseAll(items)[k])
  {
    SurvivorsLength(items);
    if items != [] {
      var n := |items| - 1;
      var front := items[..n];
      SurvivorsParse(front);
      SurvivorsLength(front);
      var s, r := Survivors(items), ParseAll(items);
      forall k | 0 <= k < |s|
        ensures ParseComment(items[s[k]]) == Ok(r[k])
      {
        if k < |Survivors(front)| {
          assert s[k] == Survivors(front)[k] && r[k] == ParseAll(front)[k];
          assert items[s[k]] == front[s[k]];
        } else {
          assert s[k] == n;
        }
      }
    }
  }

  /** The surviving indices increase: the survivors keep their original relative order. */
  lemma SurvivorsIncrease(items: seq<Json>)
    ensures forall k, l :: 0 <= k < l < |Survivors(items)| ==> Survivors(items)[k] < Survivors(items)[l]
  {
    KeptIncrease(items, Accepted);
  }

  /** An element survives exactly when `parseComment` accepts it: no good element is lost. */
  lemma SurvivorsComplete(items: seq<Json>)
    ensures forall i :: 0 <= i < |items| ==> (i in Survivors(items) <==> ParseComment(items[i]).Ok?)
  {
    KeptComplete(items, Accepted);
  }

  /** Elements are parsed independently: parsing a concatenation parses each part. */
  lemma {:induction false} ParseAllAppend(a: seq<Json>, b: seq<Json>)
    ensures ParseAll(a + b) == ParseAll(a) + ParseAll(b)
  {
    if b == [] {
      assert a + b == a;
    } else {
      var n := |b| - 1;
      var last := ParseComment(b[n]);
      var tail := if last.Ok? then [last.value] else [];
      assert (a + b)[..|a + b| - 1] == a + b[..n];
      assert (a + b)[|a + b| - 1] == b[n];
      assert ParseAll(a + b) == ParseAll(a + b[..n]) + tail;
      assert ParseAll(b) == ParseAll(b[..n]) + tail;
      ParseAllAppend(a, b[..n]);
      AppendAssoc(ParseAll(a), ParseAll(b[..n]), tail);
    }
  }

  /** Every comment `parseResponse` returns is canonical; in particular its severity lies in [1, 5]. */
  lemma ParseAllCanonical(items: seq<Json>)
    ensures forall c :: c in ParseAll(items) ==> Canonical(c)
  {
    SurvivorsParse(items);
    forall c | c in ParseAll(items) ensures Canonical(c) {
      var k :| 0 <= k < |ParseAll(items)| && ParseAll(items)[k] == c;
      assert ParseComment(items[Survivors(items)[k]]) == Ok(c);
    }
  }

  /**
   * `parseResponse`: strip the reasoning block, read the reply as a JSON array
   * (`parseAsJsonArray`, whose recovery rules live outside this model), and keep
   * every element that `parseComment` accepts.
   */
  method ParseResponse(response: string, reasoningTag: string, parseAsJsonArray: string -> seq<Json>)
    returns (comments: seq<ReviewComment>)
    ensures comments == ParseAll(parseAsJsonArray(StripReasoning(response, reasoningTag)))
  {
    var stripped := StripReasoning(response, reasoningTag);
    var parsedArray := parseAsJsonArray(stripped);
    comments := [];
    for i := 0 to |parsedArray|
      invariant comments == ParseAll(parsedArray[..i])
    {
      assert parsedArray[..i + 1][..i] == parsedArray[..i];
      var item := ParseComment(parsedArray[i]);
      if item.Ok? {
        comments := comments + [item.value];
      }
    }
    assert parsedArray[..|parsedArray|] == parsedArray;
  }

  /* ---------- sortFileCommentsBySeverity ---------- */

  /** A file as aggregation leaves it: comments worst first, at least one, the maximum in front. */
  ghost predicate Aggregated(f: FileComments) {
    && |f.comments| > 0
    && SortedDesc(f.comments, Severity)
    && f.maxSeverity == f.comments[0].severity
  }

  /** What one raw file contributes to the map: its sorted comments, or nothing when it has none. */
  function Entry(e: RawFileComments): Option<FileComments> {
    var sorted := SortDesc(e.comments, Severity);
    if |sorted| == 0 then None else Some(FileComments(e.target, sorted, sorted[0].severity))
  }

  /** The contribution of a file with comments is a stable, worst-first arrangement of them. */
  lemma EntryIsStableSort(e: RawFileComments)
    requires |e.comments| > 0
    ensures Entry(e).Some? && Entry(e).value.target == e.target && Aggregated(Entry(e).value)
    ensures multiset(Entry(e).value.comments) == multiset(e.comments)
    ensures forall v :: KeyFilter(Entry(e).value.comments, Severity, v) == KeyFilter(e.comments, Severity, v)
    ensures forall c :: c in e.comments ==> c.severity <= Entry(e).value.maxSeverity
  {
    forall v ensures KeyFilter(Entry(e).value.comments, Severity, v) == KeyFilter(e.comments, Severity, v) {
      SortStable(e.comments, Severity, v);
    }
    var sorted := Entry(e).value.comments;
    HeadIsMax(sorted, Severity);
    forall c | c in e.comments ensures c.severity <= Entry(e).value.maxSeverity {
      assert c in multiset(sorted);
    }
  }

  /** Every value of the map is an aggregated file stored under its own target. */
  ghost predicate WellKeyed(m: JsMap.Map<string, FileComments>) {
    forall t :: t in m.entries ==> m.entries[t].target == t && Aggregated(m.entries[t])
  }

  /** One iteration of the loop: `commentsByFile.set(target, entry)` when the file has comments. */
  function Step(m: JsMap.Map<string, FileComments>, e: RawFileComments): (r: JsMap.Map<string, FileComments>)
    requires JsMap.Valid(m) && WellKeyed(m)
    ensures JsMap.Valid(r) && WellKeyed(r)
    ensures |e.comments| == 0 ==> r == m
    ensures |e.comments| > 0 ==> Entry(e).Some? && r == JsMap.Set(m, e.target, Entry(e).value)
  {
    match Entry(e)
    case None => m
    case Some(f) =>
      assert f.target == e.target && Aggregated(f) by { EntryIsStableSort(e); }
      JsMap.Set(m, f.target, f)
  }

  /** The loop over the raw files. */
  function Collect(input: seq<RawFileComments>): (m: JsMap.Map<string, FileComments>)
    ensures JsMap.Valid(m) && WellKeyed(m)
  {
    if input == [] then JsMap.Empty() else Step(Collect(input[..|input| - 1]), input[|input| - 1])
  }

  /** The result of `sortFileCommentsBySeverity`: the map's values, worst file first. */
  function Aggregate(input: seq<RawFileComments>): (r: seq<FileComments>)
    ensures SortedDesc(r, MaxSeverity)
  {
    SortDesc(JsMap.Values(Collect(input)), MaxSeverity)
  }

  /** `j` is the last entry for `t` that has comments. */
  ghost predicate LastNonEmpty(input: seq<RawFileComments>, t: string, j: nat) {
    && j < |input| && input[j].target == t && |input[j].comments| > 0
    && forall k :: j < k < |input| && input[k].target == t ==> |input[k].comments| == 0
  }

  /** One step adds the entry's target when the entry has comments, and nothing else. */
  lemma StepMembership(m: JsMap.Map<string, FileComments>, e: RawFileComments, t: string)
    requires JsMap.Valid(m) && WellKeyed(m)
    ensures t in Step(m, e).entries <==> t in m.entries || (e.target == t && |e.comments| > 0)
  {
  }

  /** Some entry of `input` for `t` has comments. */
  ghost predicate HasEntryFor(input: seq<RawFileComments>, t: string) {
    exists j :: 0 <= j < |input| && input[j].target == t && |input[j].comments| > 0
  }

  lemma HasEntryForSnoc(input: seq<RawFileComments>, t: string)
    requires input != []
    ensures HasEntryFor(input, t) <==>
              HasEntryFor(input[..|input| - 1], t) || (input[|input| - 1].target == t && |input[|input| - 1].comments| > 0)
  {
    var n := |input| - 1;
    var front := input[..n];
    if j :| 0 <= j < |input| && input[j].target == t && |input[j].comments| > 0 {
      if j < n {
        assert front[j] == input[j];
      }
    }
    if j :| 0 <= j < |front| && front[j].target == t && |front[j].comments| > 0 {
      assert input[j] == front[j];
    }
  }

  /** A file is in the map exactly when some entry for it has comments. */
  lemma {:induction false} CollectMembership(input: seq<RawFileComments>, t: string)
    ensures t in Collect(input).entries <==> HasEntryFor(input, t)
  {
    if input != [] {
      var n := |input| - 1;
      CollectMembership(input[..n], t);
      StepMembership(Collect(input[..n]), input[n], t);
      HasEntryForSnoc(input, t);
    }
  }

  /** An entry that sets nothing for `t` keeps the last entry for `t` found before it. */
  lemma LastNonEmptyExtend(input: seq<RawFileComments>, t: string, j: nat)
    requires |input| > 0 && LastNonEmpty(input[..|input| - 1], t, j)
    requires input[|input| - 1].target != t || |input[|input| - 1].comments| == 0
    ensures LastNonEmpty(input, t, j) && input[j] == input[..|input| - 1][j]
  {
    var front := input[..|input| - 1];
    forall k | j < k < |input| && input[k].target == t ensures |input[k].comments| == 0 {
      if k < |front| {
        assert input[k] == front[k];
      }
    }
  }

  /** `Map.set` semantics: the value of a file comes from the last entry for it that has comments. */
  lemma {:induction false} CollectLastEntry(input: seq<RawFileComments>, t: string) returns (j: nat)
    requires t in Collect(input).entries
    ensures LastNonEmpty(input, t, j) && Entry(input[j]) == Some(Collect(input).entries[t])
  {
    var n := |input| - 1;
    var front := input[..n];
    var e := input[n];
    if e.target == t && |e.comments| > 0 {
      j := n;
    } else {
      assert Collect(input).entries[t] == Collect(front).entries[t] by {
        assert Collect(input) == Step(Collect(front), e);
      }
      j := CollectLastEntry(front, t);
      LastNonEmptyExtend(input, t, j);
    }
  }

  /** A later entry for a file already in the map replaces its value and keeps its position. */
  lemma CollectReplaceKeepsPosition(input: seq<RawFileComments>, e: RawFileComments)
    requires |e.comments| > 0 && e.target in Collect(input).entries
    ensures Collect(input + [e]).keys == Collect(input).keys
    ensures Collect(input + [e]).entries == Collect(input).entries[e.target := Entry(e).value]
  {
    assert (input + [e])[..|input|] == input;
  }

  /** An entry for a new file with comments goes last. */
  lemma CollectNewGoesLast(input: seq<RawFileComments>, e: RawFileComments)
    requires |e.comments| > 0 && e.target !in Collect(input).entries
    ensures Collect(input + [e]).keys == Collect(input).keys + [e.target]
  {
    assert (input + [e])[..|input|] == input;
  }

  /** An entry without comments changes nothing. */
  lemma CollectSkipsEmpty(input: seq<RawFileComments>, e: RawFileComments)
    requires |e.comments| == 0
    ensures Collect(input + [e]) == Collect(input)
  {
    assert (input + [e])[..|input|] == input;
  }

  /** The map's values have pairwise different targets, so they are pairwise different. */
  lemma ValuesDistinct(m: JsMap.Map<string, FileComments>)
    requires JsMap.Valid(m)
    requires forall t :: t in m.entries ==> m.entries[t].target == t
    ensures Distinct(JsMap.Values(m))
  {
    var vs := JsMap.Values(m);
    forall i, j | 0 <= i < j < |vs| ensures vs[i] != vs[j] {
      assert m.keys[i] in m.entries && m.keys[j] in m.entries;
      assert vs[i].target == m.keys[i] && vs[j].target == m.keys[j];
    }
  }

  /** Every value of a well-keyed map is aggregated and stored under its own target. */
  lemma ValuesWellKeyed(m: JsMap.Map<string, FileComments>)
    requires JsMap.Valid(m) && WellKeyed(m)
    ensures forall f :: f in JsMap.Values(m) ==> f.target in m.entries && m.entries[f.target] == f && Aggregated(f)
  {
    var vs := JsMap.Values(m);
    forall f | f in vs ensures f.target in m.entries && m.entries[f.target] == f {
      var i :| 0 <= i < |vs| && vs[i] == f;
      assert m.keys[i] in m.entries;
    }
  }

  /** A file is in the result exactly when it is one of the map's values. */
  lemma AggregateElements(input: seq<RawFileComments>)
    ensures forall f :: f in Aggregate(input) <==> f in JsMap.Values(Collect(input))
  {
    var out, vs := Aggregate(input), JsMap.Values(Collect(input));
    assert multiset(out) == multiset(vs);
    forall f ensures f in out <==> f in vs {
      assert f in out <==> f in multiset(out);
      assert f in vs <==> f in multiset(vs);
    }
  }

  /**
   * The triage order: every file has comments, worst first, with the maximum
   * in front; files come worst first; no file appears twice.
   */
  lemma AggregateShape(input: seq<RawFileComments>)
    ensures forall f :: f in Aggregate(input) ==> Aggregated(f)
    ensures forall f, c :: f in Aggregate(input) && c in f.comments ==> c.severity <= f.maxSeverity
    ensures SortedDesc(Aggregate(input), MaxSeverity)
    ensures forall i, j :: 0 <= i < j < |Aggregate(input)| ==> Aggregate(input)[i].target != Aggregate(input)[j].target
  {
    var m := Collect(input);
    var out := Aggregate(input);
    AggregateElements(input);
    ValuesWellKeyed(m);
    forall f, c | f in out && c in f.comments ensures c.severity <= f.maxSeverity {
      HeadIsMax(f.comments, Severity);
    }
    ValuesDistinct(m);
    DistinctPermutation(out, JsMap.Values(m));
  }

  /** A file appears in the result exactly when some entry for it has comments. */
  lemma AggregateMembership(input: seq<RawFileComments>, t: string)
    ensures (exists f :: f in Aggregate(input) && f.target == t) <==> HasEntryFor(input, t)
  {
    var m := Collect(input);
    var vs := JsMap.Values(m);
    CollectMembership(input, t);
    AggregateElements(input);
    ValuesWellKeyed(m);
    if t in m.entries {
      var i :| 0 <= i < |m.keys| && m.keys[i] == t;
      assert vs[i] in vs;
    }
  }

  /**
   * Each file of the result holds the comments of the last entry for it that had
   * any, as a stable worst-first permutation of them.
   */
  lemma AggregateLastWins(input: seq<RawFileComments>, f: FileComments) returns (j: nat)
    requires f in Aggregate(input)
    ensures LastNonEmpty(input, f.target, j) && Entry(input[j]) == Some(f)
  {
    var m := Collect(input);
    var vs := JsMap.Values(m);
    assert f in multiset(vs);
    var i :| 0 <= i < |vs| && vs[i] == f;
    assert m.keys[i] in m.entries;
    j := CollectLastEntry(input, f.target);
  }

  /** Files with equal maximum severity keep their order of first insertion into the map. */
  lemma AggregateFilesStable(input: seq<RawFileComments>, v: real)
    ensures KeyFilter(Aggregate(input), MaxSeverity, v) == KeyFilter(JsMap.Values(Collect(input)), MaxSeverity, v)
  {
    SortStable(JsMap.Values(Collect(input)), MaxSeverity, v);
  }

  /** `Omit<FileComments, 'maxSeverity'>`: the input form of an aggregated file list. */
  function Unaggregated(files: seq<FileComments>): (r: seq<RawFileComments>)
    ensures |r| == |files|
    ensures forall i :: 0 <= i < |files| ==> r[i] == RawFileComments(files[i].target, files[i].comments)
  {
    seq(|files|, i requires 0 <= i < |files| => RawFileComments(files[i].target, files[i].comments))
  }

  /** An aggregated file contributes itself back. */
  lemma EntryOfAggregated(f: FileComments)
    requires Aggregated(f)
    ensures Entry(RawFileComments(f.target, f.comments)) == Some(f)
  {
    SortOfSorted(f.comments, Severity);
  }

  /** Collecting one more file is one more loop step. */
  lemma CollectUnaggregatedLast(files: seq<FileComments>)
    requires files != []
    ensures Collect(Unaggregated(files)) ==
              Step(Collect(Unaggregated(files[..|files| - 1])), RawFileComments(files[|files| - 1].target, files[|files| - 1].comments))
  {
    assert Unaggregated(files)[..|files| - 1] == Unaggregated(files[..|files| - 1]);
  }

  /** The targets of `files`, in order. */
  function Targets(files: seq<FileComments>): (r: seq<string>)
    ensures |r| == |files|
    ensures forall i :: 0 <= i < |files| ==> r[i] == files[i].target
  {
    seq(|files|, i requires 0 <= i < |files| => files[i].target)
  }

  /** With pairwise different targets, the last target is not among the earlier ones. */
  lemma LastTargetIsNew(files: seq<FileComments>)
    requires files != []
    requires forall i, j :: 0 <= i < j < |files| ==> files[i].target != files[j].target
    ensures files[|files| - 1].target !in Targets(files[..|files| - 1])
  {
    var n := |files| - 1;
    forall i | 0 <= i < n ensures Targets(files[..n])[i] != files[n].target {
      assert files[i].target != files[n].target;
    }
  }

  /** Files that are aggregated and distinct keep being so without the last one. */
  lemma AggregatedFront(files: seq<FileComments>)
    requires files != []
    requires forall f :: f in files ==> Aggregated(f)
    requires forall i, j :: 0 <= i < j < |files| ==> files[i].target != files[j].target
    ensures var front := files[..|files| - 1];
      && (forall f :: f in front ==> Aggregated(f))
      && (forall i, j :: 0 <= i < j < |front| ==> front[i].target != front[j].target)
      && Aggregated(files[|files| - 1])
  {
    assert forall f :: f in files[..|files| - 1] ==> f in files;
  }

  /** One loop step over an aggregated file for a new target appends it, as itself. */
  lemma StepAppendsAggregated(m: JsMap.Map<string, FileComments>, files: seq<FileComments>)
    requires files != [] && Aggregated(files[|files| - 1])
    requires JsMap.Valid(m) && WellKeyed(m)
    requires m.keys == Targets(files[..|files| - 1]) && JsMap.Values(m) == files[..|files| - 1]
    requires files[|files| - 1].target !in Targets(files[..|files| - 1])
    ensures var r := Step(m, RawFileComments(files[|files| - 1].target, files[|files| - 1].comments));
      r.keys == Targets(files) && JsMap.Values(r) == files
  {
    var n := |files| - 1;
    var f := files[n];
    EntryOfAggregated(f);
    JsMap.ValuesSetNew(m, f.target, f);
    assert files[..n] + [f] == files;
    assert Targets(files) == Targets(files[..n]) + [f.target];
  }

  /** Collecting files that are already aggregated and distinct rebuilds them, in order. */
  lemma {:induction false} CollectAggregated(files: seq<FileComments>)
    requires forall f :: f in files ==> Aggregated(f)
    requires forall i, j :: 0 <= i < j < |files| ==> files[i].target != files[j].target
    ensures Collect(Unaggregated(files)).keys == Targets(files)
    ensures JsMap.Values(Collect(Unaggregated(files))) == files
  {
    if files != [] {
      var front := files[..|files| - 1];
      AggregatedFront(files);
      CollectAggregated(front);
      LastTargetIsNew(files);
      CollectUnaggregatedLast(files);
      StepAppendsAggregated(Collect(Unaggregated(front)), files);
    }
  }

  /** Aggregating an aggregated result again changes nothing. */
  lemma AggregateIdempotent(input: seq<RawFileComments>)
    ensures Aggregate(Unaggregated(Aggregate(input))) == Aggregate(input)
  {
    var out := Aggregate(input);
    AggregateShape(input);
    CollectAggregated(out);
    var m := Collect(Unaggregated(out));
    assert JsMap.Values(m) == out;
    SortOfSorted(out, MaxSeverity);
  }

  /** `sortFileCommentsBySeverity`. */
  method SortFileCommentsBySeverity(comments: seq<RawFileComments>) returns (sortedFiles: seq<FileComments>)
    ensures sortedFiles == Aggregate(comments)
    ensures forall f :: f in sortedFiles ==> Aggregated(f)
    ensures SortedDesc(sortedFiles, MaxSeverity)
  {
    var commentsByFile := JsMap.Empty<string, FileComments>();
    for i := 0 to |comments|
      invariant commentsByFile == Collect(comments[..i])
    {
      assert comments[..i + 1][..i] == comments[..i];
      var comment := comments[i];
      var sortedComments := SortDesc(comment.comments, Severity);
      if |sortedComments| == 0 {
        continue;
      }
      var maxSeverity := sortedComments[0].severity;
      commentsByFile := JsMap.Set(commentsByFile, comment.target, FileComments(comment.target, sortedComments, maxSeverity));
    }
    assert comments[..|comments|] == comments;
    sortedFiles := SortDesc(JsMap.Values(commentsByFile), MaxSeverity);
    AggregateShape(comments);
  }
}
