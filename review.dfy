/**
 * The text handling of the `POST /review` handler: the guard on the submitted
 * code, the prompt sent to the language model, the split of the model's reply
 * into a review and optimized code, and the response the handler sends.
 */
module ReviewEndpoint {
  import opened Wrappers
  import opened JsString

  /** The heading the handler splits the model's reply on. */
  const Marker: string := "### \U{1F539} **Optimized Code:**"
  const Fence: string := "```"
  const NoOptimizedCode: string := "No optimized code provided."
  const NoCodeError: string := "No code provided!"
  const AiFailureError: string := "Error processing AI request"

  /** The prompt template up to the opening fence around the submitted code ... */
  const PromptHead: string :=
    "\n"
    + "    You are an **expert AI software engineer**.  \n"
    + "    Your task is to **analyze and improve the given code** by:  \n"
    + "    - **Fixing performance issues**  \n"
    + "    - **Improving readability & structure**  \n"
    + "    - **Enhancing security**  \n"
    + "    - **Following best coding practices**  \n"
    + "\n"
    + "    ---\n"
    + "    ### \U{1F539} **Original Code:**\n"
    + "    "

  /** ... and from the closing fence on. */
  const PromptTail: string :=
    "\n"
    + "\n"
    + "    ---\n"
    + "    ### \U{1F539} **AI Code Review:**  \n"
    + "    1\U{FE0F}\U{20E3} **Summary of what the code does**  \n"
    + "    2\U{FE0F}\U{20E3} **Problems & Areas for Improvement**  \n"
    + "    3\U{FE0F}\U{20E3} **Code Quality Score (1-10)**  \n"
    + "    4\U{FE0F}\U{20E3} **Security & Performance Risks**  \n"
    + "\n"
    + "    ---\n"
    + "    ### \U{1F539} **Optimized Code:**  \n"
    + "    ```\n"
    + "// AI will generate the improved version of this code here\n"
    + "    ```\n"
    + "    ---\n"
    + "    \U{1F680} **Ensure the optimized code is well-structured, secure, and error-free.**  \n"
    + "    "

  /** JavaScript truthiness of a string that may be `undefined`: `undefined` and "" are falsy. */
  predicate Truthy(s: Option<string>) {
    s.Some? && s.value != []
  }

  // ---------------------------------------------------------------------------
  // The prompt

  /** The template literal with the submitted code between two fences. */
  function Prompt(code: string): (p: string)
    ensures p == (PromptHead + Fence) + code + (Fence + PromptTail)
    ensures Occurs(p, Fence + code + Fence, |PromptHead|)
  {
    var p := PromptHead + Fence + code + Fence + PromptTail;
    assert p[|PromptHead|..|PromptHead| + |Fence + code + Fence|] == Fence + code + Fence;
    p
  }

  /** Reads the submitted code back out of a prompt, if the prompt has the template's shape. */
  function EmbeddedCode(prompt: string): (r: Option<string>)
    ensures r.Some? ==> Prompt(r.value) == prompt
  {
    Unwrap(prompt, PromptHead + Fence, Fence + PromptTail)
  }

  /** The prompt keeps the code verbatim: it can be read back out unchanged. */
  lemma {:induction false} PromptRoundTrip(code: string)
    ensures EmbeddedCode(Prompt(code)) == Some(code)
  {
    UnwrapWrapped(PromptHead + Fence, code, Fence + PromptTail);
  }

  // ---------------------------------------------------------------------------
  // The guard

  datatype Admission = Rejected(status: nat, error: string) | Ask(prompt: string)

  /**
   * A falsy `code` is answered with 400 before any prompt exists; otherwise
   * the one prompt sent to the model is built from the code.
   */
  function Admit(code: Option<string>): (a: Admission)
    ensures a.Rejected? <==> !Truthy(code)
    ensures a.Rejected? ==> a == Rejected(400, NoCodeError)
    ensures a.Ask? ==> Contains(a.prompt, Fence + code.value + Fence)
    ensures a.Ask? ==> EmbeddedCode(a.prompt) == code
  {
    if !Truthy(code) then
      Rejected(400, NoCodeError)
    else
      PromptRoundTrip(code.value);
      Ask(Prompt(code.value))
  }

  // ---------------------------------------------------------------------------
  // The split of the model's reply

  datatype AiReview = AiReview(reviewText: string, optimizedCode: string)

  /** `NoOptimizedCode` holds no backtick, so no fence. */
  lemma {:induction false} PlaceholderHasNoFence()
    ensures !Contains(NoOptimizedCode, Fence)
  {
    forall j
      ensures !Occurs(NoOptimizedCode, Fence, j)
    {
      if 0 <= j && j + |Fence| <= |NoOptimizedCode| {
        assert NoOptimizedCode[j..j + |Fence|][0] == NoOptimizedCode[j] != '`';
      }
    }
  }

  /** The optimized code: the placeholder for a falsy part, else the part without fences, trimmed. */
  function CleanOptimizedCode(part: Option<string>): (r: string)
    ensures !Contains(r, Fence) && Stripped(r)
  {
    if Truthy(part) then
      var removed := RemoveAll(part.value, Fence);
      assert Uniform(Fence) by {
        forall k | 0 <= k < |Fence| ensures Fence[k] == Fence[0] { }
      }
      RemoveAllUniformFree(part.value, Fence);
      TrimFree(removed, Fence);
      Trim(removed)
    else
      PlaceholderHasNoFence();
      NoOptimizedCode
  }

  /**
   * `const [reviewPart, optimizedCodePart] = parts`: the first part, trimmed,
   * is the review and the second, if any, gives the optimized code. Later
   * parts are not looked at.
   */
  function FromParts(parts: seq<string>): (r: AiReview)
    requires |parts| >= 1
    ensures !Contains(r.optimizedCode, Fence) && Stripped(r.optimizedCode)
  {
    var optimizedCodePart := if |parts| > 1 then Some(parts[1]) else None;
    AiReview(Trim(parts[0]), CleanOptimizedCode(optimizedCodePart))
  }

  /** The model's reply split on the marker. */
  function SplitResponse(aiText: string): (r: AiReview)
    ensures !Contains(r.reviewText, Marker) && Stripped(r.reviewText)
    ensures !Contains(r.optimizedCode, Fence) && Stripped(r.optimizedCode)
  {
    var parts := Split(aiText, Marker);
    SplitCutsAtFirstMatches(aiText, Marker);
    SplitPartFree(parts, Marker, 0);
    TrimFree(parts[0], Marker);
    FromParts(parts)
  }

  /** `#` occurs in the marker only in its first three places. */
  lemma {:induction false} MarkerHashes(d: int)
    requires 3 <= d < |Marker|
    ensures Marker[d] != '#'
  {
  }

  /** Two occurrences of the marker never overlap. */
  lemma {:induction false} MarkerUnbordered()
    ensures Unbordered(Marker)
  {
    forall d | 0 < d < |Marker|
      ensures Marker[d..] != Marker[..|Marker| - d]
    {
      assert Marker[1] == Marker[2] == '#' && Marker[3] == ' ';
      if d == 1 {
        assert Marker[d..][2] == Marker[3] && Marker[..|Marker| - d][2] == Marker[2];
      } else if d == 2 {
        assert Marker[d..][1] == Marker[3] && Marker[..|Marker| - d][1] == Marker[1];
      } else {
        MarkerHashes(d);
        assert Marker[d..][0] != Marker[..|Marker| - d][0];
      }
    }
  }

  /** White space holds no marker and no fence, since neither starts with white space. */
  lemma {:induction false} NoMatchInWhiteSpace(ws: string, p: string)
    requires AllWS(ws) && p != [] && !IsWS(p[0])
    ensures !Contains(ws, p)
  {
    forall j
      ensures !Occurs(ws, p, j)
    {
      if 0 <= j && j + |p| <= |ws| {
        assert ws[j..j + |p|][0] == ws[j];
      }
    }
  }

  /**
   * Helper: the split read off the pieces of `Split`, the review from the
   * first and the optimized code from the second when it is there and not "".
   */
  lemma {:induction false} SplitResponseOfParts(aiText: string)
    ensures var parts := Split(aiText, Marker);
      SplitResponse(aiText)
        == AiReview(Trim(parts[0]), if |parts| > 1 && parts[1] != [] then Trim(RemoveAll(parts[1], Fence)) else NoOptimizedCode)
  {
    var parts := Split(aiText, Marker);
    assert SplitResponse(aiText) == FromParts(parts);
    if |parts| > 1 {
      assert FromParts(parts) == AiReview(Trim(parts[0]), CleanOptimizedCode(Some(parts[1])));
    } else {
      assert FromParts(parts) == AiReview(Trim(parts[0]), CleanOptimizedCode(None));
    }
  }

  /** With no marker, the review is the whole reply trimmed and the optimized code the placeholder. */
  lemma {:induction false} MissingMarker(aiText: string)
    requires !Contains(aiText, Marker)
    ensures SplitResponse(aiText) == AiReview(Trim(aiText), NoOptimizedCode)
  {
    SplitWithoutSeparator(aiText, Marker);
    SplitResponseOfParts(aiText);
  }

  /** The review is the text before the first marker, trimmed. */
  lemma {:induction false} ReviewIsTextBeforeFirstMarker(aiText: string, i: int)
    requires FirstOccurrence(aiText, Marker, i)
    ensures SplitResponse(aiText).reviewText == Trim(aiText[..i])
  {
    SplitAtFirst(aiText, Marker, i);
    assert Split(aiText, Marker)[0] == aiText[..i];
    SplitResponseOfParts(aiText);
  }

  /**
   * The optimized code comes from the text between the first and the second
   * marker: the placeholder when that text is empty, else that text without
   * fences, trimmed.
   */
  lemma {:induction false} OptimizedCodeBetweenMarkers(aiText: string, i: int, j: int)
    requires FirstOccurrence(aiText, Marker, i)
    requires FirstOccurrence(aiText[i + |Marker|..], Marker, j)
    ensures SplitResponse(aiText).optimizedCode
      == if j == 0 then NoOptimizedCode else Trim(RemoveAll(aiText[i + |Marker|..][..j], Fence))
  {
    var rest := aiText[i + |Marker|..];
    SplitAtFirst(aiText, Marker, i);
    SplitAtFirst(rest, Marker, j);
    assert Split(aiText, Marker)[1] == rest[..j];
    SplitResponseOfParts(aiText);
  }

  /**
   * With a single marker, the optimized code comes from all the text after it:
   * the placeholder when the marker ends the reply, else that text without
   * fences, trimmed.
   */
  lemma {:induction false} OptimizedCodeAfterOnlyMarker(aiText: string, i: int)
    requires FirstOccurrence(aiText, Marker, i)
    requires !Contains(aiText[i + |Marker|..], Marker)
    ensures SplitResponse(aiText).optimizedCode
      == if i + |Marker| == |aiText| then NoOptimizedCode else Trim(RemoveAll(aiText[i + |Marker|..], Fence))
  {
    var rest := aiText[i + |Marker|..];
    SplitAtFirst(aiText, Marker, i);
    SplitWithoutSeparator(rest, Marker);
    assert Split(aiText, Marker) == [aiText[..i], rest];
    SplitResponseOfParts(aiText);
  }

  /**
   * With two markers, the review is the text before the first and the
   * optimized code comes from the text between the two.
   */
  lemma {:induction false} TwoMarkers(a: string, b: string, x: string)
    requires !Contains(a, Marker) && !Contains(b, Marker)
    ensures SplitResponse(a + Marker + b + Marker + x)
      == AiReview(Trim(a), if b == [] then NoOptimizedCode else Trim(RemoveAll(b, Fence)))
  {
    var aiText := a + Marker + b + Marker + x;
    MarkerUnbordered();
    assert aiText == a + Marker + (b + Marker + x);
    SplitAfterFreeText(a, Marker, b + Marker + x);
    SplitAfterFreeText(b, Marker, x);
    assert Split(aiText, Marker) == [a] + ([b] + Split(x, Marker));
    assert Split(aiText, Marker)[0] == a && Split(aiText, Marker)[1] == b;
    SplitResponseOfParts(aiText);
  }

  /** Whatever follows a second marker has no effect on the result. */
  lemma {:induction false} TextAfterSecondMarkerIgnored(a: string, b: string, x: string, y: string)
    requires !Contains(a, Marker) && !Contains(b, Marker)
    ensures SplitResponse(a + Marker + b + Marker + x) == SplitResponse(a + Marker + b + Marker + y)
  {
    TwoMarkers(a, b, x);
    TwoMarkers(a, b, y);
  }

  /** A marker that ends the reply gives the placeholder, since the part after it is "". */
  lemma {:induction false} MarkerAtEnd(a: string)
    requires !Contains(a, Marker)
    ensures SplitResponse(a + Marker) == AiReview(Trim(a), NoOptimizedCode)
  {
    MarkerUnbordered();
    assert a + Marker == a + Marker + [];
    SplitAfterFreeText(a, Marker, []);
    NoMatchInWhiteSpace([], Marker);
    SplitWithoutSeparator([], Marker);
    assert Split(a + Marker, Marker) == [a, []];
    SplitResponseOfParts(a + Marker);
  }

  /** Two markers in a row give the placeholder, since the part between them is "". */
  lemma {:induction false} AdjacentMarkers(a: string, x: string)
    requires !Contains(a, Marker)
    ensures SplitResponse(a + Marker + Marker + x).optimizedCode == NoOptimizedCode
  {
    var aiText := a + Marker + Marker + x;
    MarkerUnbordered();
    assert aiText == a + Marker + (Marker + x);
    assert Marker + x == [] + Marker + x;
    NoMatchInWhiteSpace([], Marker);
    SplitAfterFreeText(a, Marker, Marker + x);
    SplitAfterFreeText([], Marker, x);
    assert Split(aiText, Marker) == [a] + ([[]] + Split(x, Marker));
    assert Split(aiText, Marker)[1] == [];
    SplitResponseOfParts(aiText);
  }

  /**
   * White space alone after the marker is truthy, so it gives "" rather than
   * the placeholder.
   */
  lemma {:induction false} WhiteSpaceAfterMarker(a: string, ws: string)
    requires !Contains(a, Marker) && ws != [] && AllWS(ws)
    ensures SplitResponse(a + Marker + ws) == AiReview(Trim(a), [])
  {
    SplitBeforeWhiteSpace(a, ws);
    WhiteSpaceCleansToNothing(ws);
    SplitResponseOfParts(a + Marker + ws);
  }

  /** A fence alone after the marker is truthy too, and removing it leaves "". */
  lemma {:induction false} FenceAfterMarker(a: string)
    requires !Contains(a, Marker)
    ensures SplitResponse(a + Marker + Fence) == AiReview(Trim(a), [])
  {
    MarkerUnbordered();
    SplitAfterFreeText(a, Marker, Fence);
    SplitWithoutSeparator(Fence, Marker);
    assert Split(a + Marker + Fence, Marker) == [a, Fence];
    RemoveAllAt(Fence, Fence, 0);
    assert RemoveAll(Fence, Fence) == [];
    SplitResponseOfParts(a + Marker + Fence);
  }

  /** Helper: white space after the only marker forms the second part on its own. */
  lemma {:induction false} SplitBeforeWhiteSpace(a: string, ws: string)
    requires !Contains(a, Marker) && AllWS(ws)
    ensures Split(a + Marker + ws, Marker) == [a, ws]
  {
    MarkerUnbordered();
    SplitAfterFreeText(a, Marker, ws);
    NoMatchInWhiteSpace(ws, Marker);
    SplitWithoutSeparator(ws, Marker);
  }

  /** Helper: white space holds no fence and trims to nothing. */
  lemma {:induction false} WhiteSpaceCleansToNothing(ws: string)
    requires AllWS(ws)
    ensures Trim(RemoveAll(ws, Fence)) == []
  {
    NoMatchInWhiteSpace(ws, Fence);
    RemoveAllUnchangedIff(ws, Fence);
    TrimTakesOffWhiteSpace(ws);
  }

  /** `s` is made only of fences and white space, in any order. */
  ghost predicate FencesAndWhiteSpace(s: string)
    decreases |s|
  {
    || s == []
    || (Fence <= s && FencesAndWhiteSpace(s[|Fence|..]))
    || (IsWS(s[0]) && FencesAndWhiteSpace(s[1..]))
  }

  /** Every character of such a text is a backtick or white space. */
  lemma {:induction false} FencesAndWhiteSpaceChars(s: string)
    requires FencesAndWhiteSpace(s)
    ensures forall k :: 0 <= k < |s| ==> s[k] == '`' || IsWS(s[k])
    decreases |s|
  {
    if s == [] {
    } else if Fence <= s && FencesAndWhiteSpace(s[|Fence|..]) {
      var rest := s[|Fence|..];
      FencesAndWhiteSpaceChars(rest);
      forall k | 0 <= k < |s|
        ensures s[k] == '`' || IsWS(s[k])
      {
        if k < |Fence| {
          assert s[k] == Fence[k];
        } else {
          assert s[k] == rest[k - |Fence|];
        }
      }
    } else {
      var rest := s[1..];
      FencesAndWhiteSpaceChars(rest);
      forall k | 0 <= k < |s|
        ensures s[k] == '`' || IsWS(s[k])
      {
        if k > 0 {
          assert s[k] == rest[k - 1];
        }
      }
    }
  }

  /** Fences and white space hold no pattern that starts with anything else. */
  lemma {:induction false} NoMatchInFencesAndWhiteSpace(s: string, p: string)
    requires FencesAndWhiteSpace(s) && p != [] && p[0] != '`' && !IsWS(p[0])
    ensures !Contains(s, p)
  {
    FencesAndWhiteSpaceChars(s);
    forall j
      ensures !Occurs(s, p, j)
    {
      if 0 <= j && j + |p| <= |s| {
        assert s[j..j + |p|][0] == s[j];
      }
    }
  }

  /** Removing every fence from such a text leaves white space only. */
  lemma {:induction false} RemoveFencesLeavesWhiteSpace(s: string)
    requires FencesAndWhiteSpace(s)
    ensures AllWS(RemoveAll(s, Fence))
    decreases |s|
  {
    if s == [] {
      assert RemoveAll(s, Fence) == [];
    } else if Fence <= s && FencesAndWhiteSpace(s[|Fence|..]) {
      var rest := s[|Fence|..];
      assert s == Fence + rest;
      RemoveAllLeading(Fence, rest);
      RemoveFencesLeavesWhiteSpace(rest);
    } else {
      var rest := s[1..];
      assert s == [s[0]] + rest;
      assert s[0] != Fence[0];
      RemoveAllCons(s[0], rest, Fence);
      RemoveFencesLeavesWhiteSpace(rest);
      AllWSConcat([s[0]], RemoveAll(rest, Fence));
    }
  }

  /**
   * A segment of fences and white space cleans to nothing: when it is not
   * "" it is truthy, so the result is "", not the placeholder.
   */
  lemma {:induction false} FencesAndWhiteSpaceCleanToNothing(seg: string)
    requires FencesAndWhiteSpace(seg)
    ensures Trim(RemoveAll(seg, Fence)) == []
    ensures seg != [] ==> CleanOptimizedCode(Some(seg)) == []
  {
    RemoveFencesLeavesWhiteSpace(seg);
    TrimTakesOffWhiteSpace(RemoveAll(seg, Fence));
  }

  /** Between two markers, a non-empty segment of fences and white space gives "". */
  lemma {:induction false} FencesAndWhiteSpaceBetweenMarkers(a: string, b: string, x: string)
    requires !Contains(a, Marker) && b != [] && FencesAndWhiteSpace(b)
    ensures SplitResponse(a + Marker + b + Marker + x) == AiReview(Trim(a), [])
  {
    assert Marker[0] == '#';
    NoMatchInFencesAndWhiteSpace(b, Marker);
    TwoMarkers(a, b, x);
    FencesAndWhiteSpaceCleanToNothing(b);
  }

  /** After the only marker, a non-empty segment of fences and white space gives "". */
  lemma {:induction false} FencesAndWhiteSpaceAfterOnlyMarker(a: string, b: string)
    requires !Contains(a, Marker) && b != [] && FencesAndWhiteSpace(b)
    ensures SplitResponse(a + Marker + b) == AiReview(Trim(a), [])
  {
    assert Marker[0] == '#';
    MarkerUnbordered();
    SplitAfterFreeText(a, Marker, b);
    NoMatchInFencesAndWhiteSpace(b, Marker);
    SplitWithoutSeparator(b, Marker);
    assert Split(a + Marker + b, Marker) == [a, b];
    FencesAndWhiteSpaceCleanToNothing(b);
    SplitResponseOfParts(a + Marker + b);
  }

  /** Splitting a review again gives it back unchanged, with the placeholder beside it. */
  lemma {:induction false} SplitResponseIdempotent(aiText: string)
    ensures var review := SplitResponse(aiText).reviewText;
      SplitResponse(review) == AiReview(review, NoOptimizedCode)
  {
    var review := SplitResponse(aiText).reviewText;
    MissingMarker(review);
    TrimIdempotent(Split(aiText, Marker)[0]);
  }

  // ---------------------------------------------------------------------------
  // The handler

  /** The document the handler asks the store to save. */
  datatype ReviewRecord = ReviewRecord(code: string, review: string, optimizedCode: string)

  datatype Body = Failure(error: string) | Reviewed(review: string, optimizedCode: string)

  datatype Response = Response(status: nat, body: Body)

  /**
   * `POST /review` with body field `code`. The model's completion and the
   * store's save are the handler's two collaborators: `complete` gives the
   * reply to a prompt (`None` when the call or its result fails) and `save`
   * tells whether the record was stored.
   */
  function HandleReview(code: Option<string>, complete: string -> Option<string>, save: ReviewRecord -> bool): (res: Response)
    ensures res.status in {200, 400, 500}
    ensures res.status == 400 <==> !Truthy(code)
    ensures res.status == 400 ==> res.body == Failure(NoCodeError)
    ensures res.status == 500 ==> res.body == Failure(AiFailureError)
    ensures res.status == 200 <==>
      && Truthy(code)
      && complete(Prompt(code.value)).Some?
      && save(ReviewRecord(code.value, SplitResponse(complete(Prompt(code.value)).value).reviewText,
                           SplitResponse(complete(Prompt(code.value)).value).optimizedCode))
    ensures res.status == 200 ==>
      && res.body.Reviewed?
      && AiReview(res.body.review, res.body.optimizedCode) == SplitResponse(complete(Prompt(code.value)).value)
  {
    match Admit(code)
    case Rejected(status, error) => Response(status, Failure(error))
    case Ask(prompt) =>
      match complete(prompt)
      case None => Response(500, Failure(AiFailureError))
      case Some(aiText) =>
        var split := SplitResponse(aiText);
        if save(ReviewRecord(code.value, split.reviewText, split.optimizedCode)) then
          Response(200, Reviewed(split.reviewText, split.optimizedCode))
        else
          Response(500, Failure(AiFailureError))
  }

  /** A rejected request never reaches either collaborator: the answer does not depend on them. */
  lemma {:induction false} RejectionCallsNoCollaborator(code: Option<string>,
                                     complete1: string -> Option<string>, save1: ReviewRecord -> bool,
                                     complete2: string -> Option<string>, save2: ReviewRecord -> bool)
    requires !Truthy(code)
    ensures HandleReview(code, complete1, save1) == HandleReview(code, complete2, save2)
              == Response(400, Failure(NoCodeError))
  {
  }

  /** The model is asked about the built prompt and nothing else. */
  lemma {:induction false} OnlyThePromptIsSent(code: Option<string>, complete1: string -> Option<string>,
                            complete2: string -> Option<string>, save: ReviewRecord -> bool)
    requires Truthy(code) && complete1(Prompt(code.value)) == complete2(Prompt(code.value))
    ensures HandleReview(code, complete1, save) == HandleReview(code, complete2, save)
  {
  }
}
