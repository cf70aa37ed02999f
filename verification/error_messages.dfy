/** The error classifier of the service layer (`getErrorMessage`): it turns
    a raw failure message and the operation in progress into the message
    shown to the user, by an ordered table of case-insensitive substring
    rules with a generic fallback. */
module ErrorMessages {

  import opened Wrappers
  import opened Text

  /** The operation during which the failure happened. */
  datatype Context = Generating | Editing | RemovingBackground

  /** The context as the source spells it. */
  function Tag(ctx: Context): string
  {
    match ctx
    case Generating => "generating"
    case Editing => "editing"
    case RemovingBackground => "removing background"
  }

  /** What kind of failure a message reports. */
  datatype Category = Safety | Credential | Format | Size | Fulfillment | Generic

  const SafetyMessage: string :=
    "Your prompt was blocked due to safety policies. Please revise your prompt and try again."
  const CredentialMessage: string :=
    "The provided API key is invalid. Please check your configuration."
  const FormatMessage: string :=
    "The uploaded image format is not supported. Please use a common format like PNG, JPEG, or WEBP."
  const SizeMessage: string :=
    "The uploaded image is too large. Please use an image smaller than 4MB."
  const FulfillmentMessage: string :=
    "The model couldn't complete the request. This can sometimes happen with complex requests. Try simplifying your prompt or using a different image."

  /** The message used when the error carries none. */
  function UnknownErrorMessage(ctx: Context): string
  {
    "An unknown error occurred while " + Tag(ctx) + " the image."
  }

  /** `error.message || <unknown-error message>`: a missing or empty message
      is replaced, any other message is kept as it is. */
  function EffectiveMessage(message: Option<string>, ctx: Context): (m: string)
    ensures m != ""
    ensures message.Some? && message.value != "" ==> m == message.value
    ensures message.None? || message.value == "" ==> m == UnknownErrorMessage(ctx)
  {
    match message
    case Some(text) => if text != "" then text else UnknownErrorMessage(ctx)
    case None => UnknownErrorMessage(ctx)
  }

  /** "ing" starts at index `i` of `s`. */
  predicate IngAt(s: string, i: int)
  {
    0 <= i && i + 3 <= |s| && s[i] == 'i' && s[i + 1] == 'n' && s[i + 2] == 'g'
  }

  // The source's `replace` with the pattern `ing.*` and an empty replacement,
  // read left to right: at the first place where "ing" starts, it and the
  // rest of its line are removed.
  function RemoveIngRun(s: string): (r: string)
    ensures |r| <= |s|
    ensures (forall j :: 0 <= j < |s| ==> !IngAt(s, j)) ==> r == s
    decreases |s|
  {
    if IngAt(s, 0) then s[LineEnd(s, 3)..]
    else if |s| == 0 then ""
    else
      var r := [s[0]] + RemoveIngRun(s[1..]);
      assert forall j :: 0 <= j < |s| - 1 ==> (IngAt(s[1..], j) ==> IngAt(s, j + 1));
      assert [s[0]] + s[1..] == s;
      r
  }

  /** Away from an "ing", the scan keeps the first character and moves on. */
  lemma RemoveIngRunStep(s: string)
    requires |s| > 0 && !IngAt(s, 0)
    ensures RemoveIngRun(s) == [s[0]] + RemoveIngRun(s[1..])
  {
  }

  /** A first "ing" past index 0 is a first "ing" of the tail, one earlier. */
  lemma FirstIngOfTail(s: string, i: nat)
    requires i > 0 && IngAt(s, i)
    requires forall j :: 0 <= j < i ==> !IngAt(s, j)
    ensures !IngAt(s, 0) && IngAt(s[1..], i - 1)
    ensures forall j :: 0 <= j < i - 1 ==> !IngAt(s[1..], j)
  {
    forall j | 0 <= j < i - 1 ensures !IngAt(s[1..], j) {
      assert !IngAt(s, j + 1);
    }
  }

  /** Cutting a piece out of the tail and putting the head back. */
  lemma ConsCut(s: string, i: nat, e: nat)
    requires 0 < i <= e <= |s|
    ensures [s[0]] + (s[1..][..i - 1] + s[1..][e - 1..]) == s[..i] + s[e..]
  {
    assert s[1..][e - 1..] == s[e..];
    assert [s[0]] + s[1..][..i - 1] == s[..i];
  }

  /** The scan removes exactly from the first occurrence of "ing" to the end
      of that line. */
  lemma {:induction false} RemoveIngRunAtFirst(s: string, i: nat)
    requires IngAt(s, i)
    requires forall j :: 0 <= j < i ==> !IngAt(s, j)
    ensures RemoveIngRun(s) == s[..i] + s[LineEnd(s, i + 3)..]
    decreases i
  {
    if i > 0 {
      FirstIngOfTail(s, i);
      RemoveIngRunAtFirst(s[1..], i - 1);
      LineEndShift(s, i + 2);
      RemoveIngRunStep(s);
      ConsCut(s, i, LineEnd(s, i + 3));
    }
  }

  /** A string whose first "ing" starts at `m`, with no line break after
      it, loses everything from `m` on. */
  lemma RemoveIngRunOfStem(s: string, m: nat)
    requires IngAt(s, m)
    requires forall j :: 0 <= j < m ==> !IngAt(s, j)
    requires forall k :: m + 3 <= k < |s| ==> !IsLineTerminator(s[k])
    ensures RemoveIngRun(s) == s[..m]
  {
    RemoveIngRunAtFirst(s, m);
    assert LineEnd(s, m + 3) == |s|;
  }

  /** The first "ing" after the first character of a tag, seen from its tail. */
  lemma StemOfTail(tag: string, n: nat)
    requires 1 <= n && IngAt(tag, n)
    requires forall j :: 1 <= j < n ==> !IngAt(tag, j)
    requires forall m :: n + 3 <= m < |tag| ==> !IsLineTerminator(tag[m])
    ensures IngAt(tag[1..], n - 1)
    ensures forall j :: 0 <= j < n - 1 ==> !IngAt(tag[1..], j)
    ensures forall k :: n + 2 <= k < |tag[1..]| ==> !IsLineTerminator(tag[1..][k])
  {
    forall j | 0 <= j < n - 1 ensures !IngAt(tag[1..], j) {
      assert !IngAt(tag, j + 1);
    }
    forall k | n + 2 <= k < |tag[1..]| ensures !IsLineTerminator(tag[1..][k]) {
      assert tag[1..][k] == tag[k + 1];
    }
  }

  /** Upper-casing the first character makes no difference once the whole
      word is lower-cased. */
  lemma LowerOfUpperHead(w: string)
    requires |w| > 0
    ensures Lower([UpperChar(w[0])] + w[1..]) == Lower(w)
  {
    var u := [UpperChar(w[0])] + w[1..];
    forall k | 0 <= k < |w| ensures LowerChar(u[k]) == LowerChar(w[k]) {
      if k == 0 { LowerOfUpper(w[0]); }
    }
  }

  /** The verb of the generic fallback: the context's first character
      upper-cased, the rest with its "ing" run removed, all lower-cased. */
  function ActionVerb(tag: string): (verb: string)
    ensures |verb| <= |tag|
    ensures forall k :: 0 <= k < |verb| ==> !IsAsciiUpper(verb[k])
  {
    Lower(if |tag| == 0 then "" else [UpperChar(tag[0])] + RemoveIngRun(tag[1..]))
  }

  /** A tag whose first "ing" after its first character starts at `n`, and
      whose remainder has no line break, yields the lower-cased `tag[..n]`. */
  lemma ActionVerbOfStem(tag: string, n: nat)
    requires 1 <= n && IngAt(tag, n)
    requires forall j :: 1 <= j < n ==> !IngAt(tag, j)
    requires forall m :: n + 3 <= m < |tag| ==> !IsLineTerminator(tag[m])
    ensures ActionVerb(tag) == Lower(tag[..n])
  {
    StemOfTail(tag, n);
    RemoveIngRunOfStem(tag[1..], n - 1);
    var w := tag[..n];
    assert tag[1..][..n - 1] == w[1..];
    LowerOfUpperHead(w);
  }

  /** The verb for the generating context. The tag is passed in as a
      variable so that the verifier does not unfold the scan on a literal. */
  lemma GeneratingVerb(t: string)
    requires t == Tag(Generating)
    ensures ActionVerb(t) == "generat"
  {
    ActionVerbOfStem(t, 7);
    assert t[..7] == "generat";
    LowerOfLowerCase(t[..7]);
  }

  /** The verb for the editing context. */
  lemma EditingVerb(t: string)
    requires t == Tag(Editing)
    ensures ActionVerb(t) == "edit"
  {
    ActionVerbOfStem(t, 4);
    assert t[..4] == "edit";
    LowerOfLowerCase(t[..4]);
  }

  /** The verb for the background-removal context. */
  lemma RemovingVerb(t: string)
    requires t == Tag(RemovingBackground)
    ensures ActionVerb(t) == "remov"
  {
    assert t == "removing background";
    ActionVerbOfStem(t, 5);
    assert t[..5] == "remov";
    LowerOfLowerCase(t[..5]);
  }

  /** The fallback verbs are truncated stems of the tags: "generat", "edit"
      and "remov" (for "removing background" the run after the first "ing"
      swallows " background" as well). */
  lemma ActionVerbs(ctx: Context)
    ensures ActionVerb(Tag(ctx)) ==
              match ctx
              case Generating => "generat"
              case Editing => "edit"
              case RemovingBackground => "remov"
  {
    match ctx
    case Generating => GeneratingVerb(Tag(ctx));
    case Editing => EditingVerb(Tag(ctx));
    case RemovingBackground => RemovingVerb(Tag(ctx));
  }

  /** The reply shown for each category. */
  function Reply(cat: Category, ctx: Context, message: string): string
  {
    match cat
    case Safety => SafetyMessage
    case Credential => CredentialMessage
    case Format => FormatMessage
    case Size => SizeMessage
    case Fulfillment => FulfillmentMessage
    case Generic => "Failed to " + ActionVerb(Tag(ctx)) + " image. " + message
  }

  /** The guard of the fulfilment rule: the context is one of the three tags. */
  predicate FulfillmentContext(ctx: Context)
  {
    Tag(ctx) == "editing" || Tag(ctx) == "removing background" || Tag(ctx) == "generating"
  }

  /** The rule chain as the source writes it: each test lower-cases the
      message and looks for its phrase; the first test that holds decides. */
  function ClassifyAsWritten(message: string, ctx: Context): (cat: Category)
    ensures cat == Safety <==> Contains(Lower(message), "prompt was blocked")
    ensures cat == Generic <==>
              !Contains(Lower(message), "prompt was blocked")
              && !Contains(Lower(message), "api key not valid")
              && !Contains(Lower(message), "unsupported image format")
              && !Contains(Lower(message), "image is too large")
              && !Contains(Lower(message), "internal error")
              && !Contains(Lower(message), "model could not fulfill request")
  {
    if Contains(Lower(message), "prompt was blocked") then Safety
    else if Contains(Lower(message), "api key not valid") then Credential
    else if Contains(Lower(message), "unsupported image format") then Format
    else if Contains(Lower(message), "image is too large") then Size
    else if FulfillmentContext(ctx)
            && (Contains(Lower(message), "internal error")
                || Contains(Lower(message), "model could not fulfill request")) then Fulfillment
    else Generic
  }

  /** `getErrorMessage(error, context)`. */
  function GetErrorMessage(message: Option<string>, ctx: Context): (r: string)
    ensures r != ""
    ensures r in {SafetyMessage, CredentialMessage, FormatMessage, SizeMessage, FulfillmentMessage}
            || r == "Failed to " + ActionVerb(Tag(ctx)) + " image. " + EffectiveMessage(message, ctx)
    ensures r == Reply(ClassifyByTable(Lower(EffectiveMessage(message, ctx))), ctx, EffectiveMessage(message, ctx))
  {
    var m := EffectiveMessage(message, ctx);
    ChainIsRuleTable(m, ctx);
    Reply(ClassifyAsWritten(m, ctx), ctx, m)
  }

  /** One row of the rule table: a category and the phrases that select it. */
  datatype Rule = Rule(category: Category, phrases: seq<string>)

  /** The rules in the order they are tried. */
  const RuleTable: seq<Rule> := [
    Rule(Safety, ["prompt was blocked"]),
    Rule(Credential, ["api key not valid"]),
    Rule(Format, ["unsupported image format"]),
    Rule(Size, ["image is too large"]),
    Rule(Fulfillment, ["internal error", "model could not fulfill request"])
  ]

  predicate RuleMatches(rule: Rule, lowered: string)
  {
    exists k :: 0 <= k < |rule.phrases| && Contains(lowered, rule.phrases[k])
  }

  /** The index of the first rule that matches, if any. */
  function FirstMatch(rules: seq<Rule>, lowered: string): (r: Option<nat>)
    ensures r.Some? ==> r.value < |rules| && RuleMatches(rules[r.value], lowered)
    ensures r.Some? ==> forall j :: 0 <= j < r.value ==> !RuleMatches(rules[j], lowered)
    ensures r.None? ==> forall j :: 0 <= j < |rules| ==> !RuleMatches(rules[j], lowered)
    decreases |rules|
  {
    if |rules| == 0 then None
    else if RuleMatches(rules[0], lowered) then Some(0)
    else
      match FirstMatch(rules[1..], lowered)
      case Some(k) => Some(k + 1)
      case None => None
  }

  /** Classification read off the rule table. */
  function ClassifyByTable(lowered: string): Category
  {
    match FirstMatch(RuleTable, lowered)
    case Some(k) => RuleTable[k].category
    case None => Generic
  }

  /** The chain of tests in the source is the rule table: its context guard
      holds for every context, so the category depends on the lower-cased
      message alone. */
  lemma ChainIsRuleTable(message: string, ctx: Context)
    ensures ClassifyAsWritten(message, ctx) == ClassifyByTable(Lower(message))
  {
    var l := Lower(message);
    assert RuleTable[0].phrases[0] == "prompt was blocked";
    assert RuleTable[1].phrases[0] == "api key not valid";
    assert RuleTable[2].phrases[0] == "unsupported image format";
    assert RuleTable[3].phrases[0] == "image is too large";
    assert RuleTable[4].phrases[0] == "internal error";
    assert RuleTable[4].phrases[1] == "model could not fulfill request";
    assert RuleMatches(RuleTable[0], l) <==> Contains(l, "prompt was blocked");
    assert RuleMatches(RuleTable[1], l) <==> Contains(l, "api key not valid");
    assert RuleMatches(RuleTable[2], l) <==> Contains(l, "unsupported image format");
    assert RuleMatches(RuleTable[3], l) <==> Contains(l, "image is too large");
    assert RuleMatches(RuleTable[4], l) <==>
             Contains(l, "internal error") || Contains(l, "model could not fulfill request");
    assert FulfillmentContext(ctx);
  }

  /** First match wins: the message is put in the category of rule `k`
      exactly when rule `k` matches and no earlier rule does. */
  lemma FirstMatchWins(message: string, ctx: Context, k: nat)
    requires k < |RuleTable|
    ensures ClassifyAsWritten(message, ctx) == RuleTable[k].category
            <==> RuleMatches(RuleTable[k], Lower(message))
                 && forall j :: 0 <= j < k ==> !RuleMatches(RuleTable[j], Lower(message))
  {
    ChainIsRuleTable(message, ctx);
    var l := Lower(message);
    assert forall i, j :: 0 <= i < j < |RuleTable| ==> RuleTable[i].category != RuleTable[j].category;
    assert forall i :: 0 <= i < |RuleTable| ==> RuleTable[i].category != Generic;
    match FirstMatch(RuleTable, l)
    case Some(i) =>
    case None =>
  }

  /** The generic fallback is used exactly when no rule matches. */
  lemma FallbackWhenNothingMatches(message: string, ctx: Context)
    ensures ClassifyAsWritten(message, ctx) == Generic
            <==> forall j :: 0 <= j < |RuleTable| ==> !RuleMatches(RuleTable[j], Lower(message))
  {
    ChainIsRuleTable(message, ctx);
    assert forall i :: 0 <= i < |RuleTable| ==> RuleTable[i].category != Generic;
  }

  /** The five fixed replies are pairwise distinct, so the shown text tells
      those categories apart. */
  lemma FixedRepliesDistinct(c1: Category, ctx1: Context, m1: string,
                             c2: Category, ctx2: Context, m2: string)
    requires c1 != Generic && c2 != Generic
    requires Reply(c1, ctx1, m1) == Reply(c2, ctx2, m2)
    ensures c1 == c2
  {
    assert |SafetyMessage| == 88;
    assert |CredentialMessage| == 65;
    assert |FormatMessage| == 95;
    assert |SizeMessage| == 70;
    assert |FulfillmentMessage| == 145;
  }

  /** A raw "Internal error" raised while editing is shown as the
      fulfilment-failure guidance, not as the raw text. */
  lemma InternalErrorWhileEditing()
    ensures GetErrorMessage(Some("Internal error"), Editing) == FulfillmentMessage
  {
    var l := Lower("Internal error");
    assert l == "internal error";
    assert OccursAt(l, "internal error", 0);
    ContainsAt(l, "internal error", 0);
    if Contains(l, "prompt was blocked") { ContainsNeedsRoom(l, "prompt was blocked"); }
    if Contains(l, "api key not valid") { ContainsNeedsRoom(l, "api key not valid"); }
    if Contains(l, "unsupported image format") { ContainsNeedsRoom(l, "unsupported image format"); }
    if Contains(l, "image is too large") { ContainsNeedsRoom(l, "image is too large"); }
  }
}
