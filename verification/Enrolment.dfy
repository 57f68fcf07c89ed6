/**
 Enrolling an application for verified launch: which signature is offered, the
 bounded exchange about a reputation warning with an authority and a user that
 may answer anything, and the generation counter the ledger keeps.
 */
module Enrolment {
  import opened Common

  // ---------- what is attached ----------

  /** How one attached signature turns out: not valid, valid but not the publisher's, or the publisher's. */
  datatype Verdict = Invalid | Foreign | Authorized

  /** One referrer of the image; generation 0 is one that names none. */
  datatype Referrer = Referrer(generation: nat, verdict: Verdict)

  /** What the registry holds: it cannot be read, or every referrer in the order it lists them. */
  datatype Attached = Unreadable | Listing(referrers: seq<Referrer>)

  datatype Evidence = Signed(used: Referrer) | NothingAttached | DoesNotStand(foreign: bool)

  /** The referrers that name a publisher generation. */
  function Usable(referrers: seq<Referrer>): seq<Referrer>
  {
    if referrers == [] then []
    else
      var rest, last := referrers[..|referrers| - 1], referrers[|referrers| - 1];
      Usable(rest) + if last.generation > 0 then [last] else []
  }

  /** Puts one referrer in front of those of a lower generation, behind all others. */
  function Insert(r: Referrer, sorted: seq<Referrer>): seq<Referrer>
  {
    if sorted == [] || sorted[0].generation < r.generation then [r] + sorted
    else [sorted[0]] + Insert(r, sorted[1..])
  }

  /** The stable sort, newest generation first. */
  function NewestFirst(referrers: seq<Referrer>): seq<Referrer>
  {
    if referrers == [] then []
    else Insert(referrers[|referrers| - 1], NewestFirst(referrers[..|referrers| - 1]))
  }

  ghost predicate Descending(sorted: seq<Referrer>)
  {
    forall i, j | 0 <= i < j < |sorted| :: sorted[i].generation >= sorted[j].generation
  }

  lemma {:induction false} UsableHolds(referrers: seq<Referrer>, r: Referrer)
    ensures r in Usable(referrers) <==> r in referrers && r.generation > 0
  {
    if referrers != [] {
      var rest, last := referrers[..|referrers| - 1], referrers[|referrers| - 1];
      assert referrers == rest + [last];
      UsableHolds(rest, r);
    }
  }

  lemma {:induction false} InsertHolds(r: Referrer, sorted: seq<Referrer>)
    requires Descending(sorted)
    ensures Descending(Insert(r, sorted))
    ensures forall x :: x in Insert(r, sorted) <==> x == r || x in sorted
  {
    if sorted != [] && sorted[0].generation >= r.generation {
      var tail := Insert(r, sorted[1..]);
      InsertHolds(r, sorted[1..]);
      assert sorted == [sorted[0]] + sorted[1..];
      forall i | 0 <= i < |tail|
        ensures sorted[0].generation >= tail[i].generation
      {
        assert tail[i] in tail;
      }
    }
  }

  lemma {:induction false} NewestFirstHolds(referrers: seq<Referrer>)
    ensures Descending(NewestFirst(referrers))
    ensures forall x :: x in NewestFirst(referrers) <==> x in referrers
  {
    if referrers != [] {
      var rest, last := referrers[..|referrers| - 1], referrers[|referrers| - 1];
      assert referrers == rest + [last];
      NewestFirstHolds(rest);
      InsertHolds(last, NewestFirst(rest));
    }
  }

  /**
   Everything attached that can be used, newest first; something attached of
   which nothing can be used is an error.
   */
  method AttachedSignatures(attached: Attached) returns (found: Option<seq<Referrer>>)
    ensures found.None? <==>
            || attached.Unreadable?
            || (attached.referrers != [] && forall r | r in attached.referrers :: r.generation == 0)
    ensures found.Some? ==>
            Descending(found.value) && forall r :: r in found.value <==> r in attached.referrers && r.generation > 0
  {
    if attached.Unreadable? {
      return None;
    }
    var usable := Usable(attached.referrers);
    forall r
      ensures r in usable <==> r in attached.referrers && r.generation > 0
    {
      UsableHolds(attached.referrers, r);
    }
    if |usable| == 0 && |attached.referrers| > 0 {
      return None;
    }
    assert usable != [] ==> usable[0] in usable;
    NewestFirstHolds(usable);
    found := Some(NewestFirst(usable));
  }

  ghost predicate Stands(attached: Attached, r: Referrer)
  {
    attached.Listing? && r in attached.referrers && r.generation > 0 && r.verdict.Authorized?
  }

  /**
   Takes the newest signature that is the publisher's; one made by somebody else
   outranks one that does not hold.
   */
  method VerifiedPackageSignature(attached: Attached) returns (e: Evidence)
    ensures e.NothingAttached? <==> attached == Listing([])
    ensures e.Signed? <==> exists r :: Stands(attached, r)
    ensures e.Signed? ==>
            Stands(attached, e.used) && forall r | Stands(attached, r) :: r.generation <= e.used.generation
    ensures e.DoesNotStand? && attached.Listing? ==>
              (e.foreign <==> exists r :: r in attached.referrers && r.generation > 0 && r.verdict.Foreign?)
  {
    var found := AttachedSignatures(attached);
    if found.None? {
      return DoesNotStand(false);
    }
    var sorted := found.value;
    if |sorted| == 0 {
      return NothingAttached;
    }
    assert sorted[0] in sorted;
    var foreign := false;
    for i := 0 to |sorted|
      invariant forall j | 0 <= j < i :: !sorted[j].verdict.Authorized?
      invariant foreign <==> exists j :: 0 <= j < i && sorted[j].verdict.Foreign?
    {
      assert sorted[i] in sorted;
      match sorted[i].verdict {
        case Invalid =>
        case Foreign => foreign := true;
        case Authorized =>
          NewestIsFirst(sorted, i);
          assert Stands(attached, sorted[i]);
          return Signed(sorted[i]);
      }
    }
    e := DoesNotStand(foreign);
  }

  lemma NewestIsFirst(sorted: seq<Referrer>, i: nat)
    requires Descending(sorted) && i < |sorted| && forall j | 0 <= j < i :: !sorted[j].verdict.Authorized?
    ensures forall r | r in sorted && r.verdict.Authorized? :: r.generation <= sorted[i].generation
  {
  }

  // ---------- where the evidence comes from ----------

  /** What the ledger holds when an enrolment begins: its signature may be about another image or no longer stand. */
  datatype Held = NotHeld | HeldUnsigned | HeldSigned(sameImage: bool, stands: bool)

  /** Whether the ledger would put a takeover to the owner of the machine. */
  datatype Asks = CannotTell | WouldAsk | WouldNot

  /**
   What an enrolment starts from: a published package, for which the registry is
   asked; the record of the ledger alone; or the same on behalf of the
   installation that remains after a removal.
   */
  datatype Source =
    | Published(attached: Attached)
    | Reenrolment(held: Held, sameLaunch: bool)
    | Takeover(held: Held, sameLaunch: bool, asks: Asks)

  /** The recorded signature is carried only while it is about this image and is proven again. */
  predicate Carried(held: Held) { held == HeldSigned(true, true) }

  /** The enrolment ends before anything is offered. */
  predicate Unoffered(source: Source)
  {
    match source
    case Published(_) => false
    case Reenrolment(held, sameLaunch) => !held.NotHeld? && sameLaunch
    case Takeover(held, sameLaunch, asks) => (!held.NotHeld? && sameLaunch) || !asks.WouldNot?
  }

  /** An anchor without a signature is put to the authority. */
  ghost predicate OffersUnsigned(source: Source, required: bool)
  {
    && !required && !Unoffered(source)
    && match source
       case Published(attached) => attached == Listing([])
       case Reenrolment(held, _) => !(held.HeldSigned? && held.sameImage && held.stands)
       case Takeover(held, _, _) => !(held.HeldSigned? && held.sameImage && held.stands)
  }

  ghost predicate OffersSigned(source: Source)
  {
    && !Unoffered(source)
    && match source
       case Published(attached) => exists r :: Stands(attached, r)
       case Reenrolment(held, _) => held.HeldSigned? && held.sameImage && held.stands
       case Takeover(held, _, _) => held.HeldSigned? && held.sameImage && held.stands
  }

  /** The registry holds this, as far as the enrolment looked. */
  ghost predicate Agrees(source: Source, attached: Attached)
  {
    source.Published? ==> source.attached == attached
  }

  /**
   An unsigned offer means that nothing is attached, whatever the registry
   holds, exactly when the registry was asked or no unsigned offer is made:
   signatures are required, nothing is offered, or the recorded one is carried.
   */
  lemma UnsignedMeansNothingAttached(source: Source, required: bool)
    ensures (forall attached | Agrees(source, attached) && OffersUnsigned(source, required) :: attached == Listing([]))
            <==> || source.Published? || required || Unoffered(source)
                 || (source.held.HeldSigned? && source.held.sameImage && source.held.stands)
  {
    if !source.Published? && OffersUnsigned(source, required) {
      assert Agrees(source, Unreadable);
    }
  }

  /**
   A recorded signature that no longer stands, and a valid one attached: the
   re-enrolment offers no signature and never looks.
   */
  lemma ReenrolmentNeverLooks(image: bool, newest: Referrer)
    requires newest.generation > 0 && newest.verdict.Authorized?
    ensures var source, attached := Reenrolment(HeldSigned(image, false), false), Listing([newest]);
            Agrees(source, attached) && OffersUnsigned(source, false) && Stands(attached, newest)
  {
  }

  // ---------- the exchange ----------

  type Token = nat

  /** The answer to one call of the authority. */
  datatype Reply = Accepts | Warns(token: Token) | WantsSignature | Refuses

  /** The answer to one warning shown. */
  datatype Response = Confirm | Decline | NoConfirmation

  datatype Event =
    | Offered(signed: bool, reply: Reply)
    | Shown(token: Token, response: Response)
    | Confirmed(token: Token, reply: Reply)

  datatype Outcome = Recorded | Unchanged | Declined | ConfirmationRequired | UnsignedRefused | Unrecordable

  const PROMPT_LIMIT := 3

  /** The event is a call of the authority that answered with this. */
  predicate Answered(e: Event, reply: Reply)
  {
    (e.Offered? || e.Confirmed?) && e.reply == reply
  }

  function Prompts(trace: seq<Event>): nat
  {
    if trace == [] then 0
    else Prompts(trace[..|trace| - 1]) + if trace[|trace| - 1].Shown? then 1 else 0
  }

  /**
   The rules of the exchange. It opens with the offer; a warning is shown only
   for the token the authority just gave; and a token is sent back only right
   after that very warning was confirmed.
   */
  ghost predicate Legal(trace: seq<Event>, i: nat)
    requires i < |trace|
  {
    match trace[i]
    case Offered(_, _) => i == 0
    case Shown(token, _) => i > 0 && Answered(trace[i - 1], Warns(token))
    case Confirmed(token, _) => i > 0 && trace[i - 1] == Shown(token, Confirm)
  }

  ghost predicate FollowsProtocol(trace: seq<Event>)
  {
    forall i | 0 <= i < |trace| :: Legal(trace, i)
  }

  /** What a finished exchange amounts to, read off its last event alone. */
  function Conclusion(trace: seq<Event>): Outcome
    requires trace != []
  {
    match trace[|trace| - 1]
    case Shown(_, Decline) => Declined
    case Shown(_, _) => ConfirmationRequired
    case Offered(_, Accepts) => Recorded
    case Confirmed(_, Accepts) => Recorded
    case Offered(_, Warns(_)) => ConfirmationRequired
    case Confirmed(_, Warns(_)) => ConfirmationRequired
    case Offered(_, WantsSignature) => UnsignedRefused
    case Confirmed(_, WantsSignature) => UnsignedRefused
    case Offered(_, Refuses) => Unrecordable
    case Confirmed(_, Refuses) => Unrecordable
  }

  /** The outcome tells the last answer: accepted, declined, left open, refused for want of a signature, or refused. */
  ghost predicate Tells(outcome: Outcome, last: Event)
  {
    && (outcome.Recorded? <==> Answered(last, Accepts))
    && (outcome.Declined? <==> last.Shown? && last.response == Decline)
    && (outcome.UnsignedRefused? <==> Answered(last, WantsSignature))
    && (outcome.Unrecordable? <==> Answered(last, Refuses))
    && (outcome.ConfirmationRequired? <==>
          if last.Shown? then last.response != Decline else last.reply.Warns?)
  }

  /** Where an exchange may stop: on an answer that is not a warning, on a warning not confirmed, or out of prompts. */
  ghost predicate Finished(trace: seq<Event>)
  {
    trace != [] &&
    match trace[|trace| - 1]
    case Shown(_, response) => response != Confirm
    case Offered(_, reply) => !reply.Warns?
    case Confirmed(_, reply) => reply.Warns? ==> Prompts(trace) == 3
  }

  function ResponseTo(prompt: Option<nat -> Response>, attempt: nat): Response
  {
    if prompt.Some? then prompt.value(attempt) else NoConfirmation
  }

  /** Calls and warnings take turns, and the event at position `i` carries the answer that was given to it. */
  predicate AsAnswered(e: Event, i: nat, authority: nat -> Reply, prompt: Option<nat -> Response>)
  {
    if i % 2 == 0 then Answered(e, authority(i / 2))
    else e.Shown? && e.response == match prompt case None => NoConfirmation case Some(answer) => answer(i / 2)
  }

  ghost predicate Truthful(trace: seq<Event>, authority: nat -> Reply, prompt: Option<nat -> Response>)
  {
    forall i | 0 <= i < |trace| :: AsAnswered(trace[i], i, authority, prompt)
  }

  /** What holds while an exchange is on its way. */
  ghost predicate Underway(trace: seq<Event>, authority: nat -> Reply, prompt: Option<nat -> Response>)
  {
    FollowsProtocol(trace) && Truthful(trace, authority, prompt)
  }

  lemma TraceGrows(trace: seq<Event>, e: Event, authority: nat -> Reply, prompt: Option<nat -> Response>)
    requires Underway(trace, authority, prompt) && AsAnswered(e, |trace|, authority, prompt)
    requires match e
             case Offered(_, _) => trace == []
             case Shown(token, _) => trace != [] && Answered(trace[|trace| - 1], Warns(token))
             case Confirmed(token, _) => trace != [] && trace[|trace| - 1] == Shown(token, Confirm)
    ensures Underway(trace + [e], authority, prompt)
  {
    var longer := trace + [e];
    assert longer[..|trace|] == trace;
    forall i | 0 <= i < |longer|
      ensures Legal(longer, i) && AsAnswered(longer[i], i, authority, prompt)
    {
      if i < |trace| {
        assert Legal(trace, i) && AsAnswered(trace[i], i, authority, prompt);
        assert longer[i] == trace[i] && (i > 0 ==> longer[i - 1] == trace[i - 1]);
      }
    }
  }

  /** Everything an exchange promises about its events. */
  ghost predicate Exchange(trace: seq<Event>, signed: bool, authority: nat -> Reply, prompt: Option<nat -> Response>)
  {
    && FollowsProtocol(trace) && Truthful(trace, authority, prompt)
    && Finished(trace) && Prompts(trace) <= 3
    && trace[0].Offered? && trace[0].signed == signed
  }

  lemma {:induction false} PromptsOfTruthful(trace: seq<Event>, authority: nat -> Reply,
                                             prompt: Option<nat -> Response>)
    requires Truthful(trace, authority, prompt)
    ensures Prompts(trace) == |trace| / 2
  {
    if trace != [] {
      var rest := trace[..|trace| - 1];
      forall i | 0 <= i < |rest|
        ensures AsAnswered(rest[i], i, authority, prompt)
      {
        assert AsAnswered(trace[i], i, authority, prompt);
      }
      PromptsOfTruthful(rest, authority, prompt);
      assert AsAnswered(trace[|rest|], |rest|, authority, prompt);
    }
  }

  /** Where the method stops, the exchange is finished. */
  lemma Concludes(trace: seq<Event>, signed: bool, authority: nat -> Reply, prompt: Option<nat -> Response>)
    requires Underway(trace, authority, prompt) && 0 < |trace| <= 2 * PROMPT_LIMIT + 1
    requires trace[0].Offered? && trace[0].signed == signed
    requires match trace[|trace| - 1]
             case Shown(_, response) => response != Confirm
             case Offered(_, reply) => !reply.Warns?
             case Confirmed(_, reply) => !reply.Warns? || |trace| == 2 * PROMPT_LIMIT + 1
    ensures Exchange(trace, signed, authority, prompt)
  {
    PromptsOfTruthful(trace, authority, prompt);
  }

  /** Two exchanges given the same answers have the same events as long as both go on. */
  lemma {:induction false} SameEvents(a: seq<Event>, b: seq<Event>, signed: bool, authority: nat -> Reply,
                                      prompt: Option<nat -> Response>, i: nat)
    requires Exchange(a, signed, authority, prompt) && Exchange(b, signed, authority, prompt)
    requires i < |a| && i < |b|
    ensures a[i] == b[i]
  {
    assert AsAnswered(a[i], i, authority, prompt) && AsAnswered(b[i], i, authority, prompt);
    assert Legal(a, i) && Legal(b, i);
    if i > 0 {
      SameEvents(a, b, signed, authority, prompt, i - 1);
    }
  }

  lemma NoLonger(a: seq<Event>, b: seq<Event>, signed: bool, authority: nat -> Reply, prompt: Option<nat -> Response>)
    requires Exchange(a, signed, authority, prompt) && Exchange(b, signed, authority, prompt)
    ensures |b| <= |a|
  {
    if |b| > |a| {
      var n := |a|;
      SameEvents(a, b, signed, authority, prompt, n - 1);
      assert AsAnswered(b[n], n, authority, prompt) && AsAnswered(a[n - 1], n - 1, authority, prompt);
      assert Legal(b, n);
      PromptsOfTruthful(a, authority, prompt);
      PromptsOfTruthful(b, authority, prompt);
      assert false;
    }
  }

  /** The answers decide the whole exchange. */
  lemma ExchangeIsDetermined(a: seq<Event>, b: seq<Event>, signed: bool, authority: nat -> Reply,
                             prompt: Option<nat -> Response>)
    requires Exchange(a, signed, authority, prompt) && Exchange(b, signed, authority, prompt)
    ensures a == b
  {
    NoLonger(a, b, signed, authority, prompt);
    NoLonger(b, a, signed, authority, prompt);
    forall i | 0 <= i < |a|
      ensures a[i] == b[i]
    {
      SameEvents(a, b, signed, authority, prompt, i);
    }
  }

  /**
   Offers an anchor and carries the exchange through. `authority` gives the
   answer to each call in turn and `prompt`, when there is one, the answer to
   each warning; nothing is asked of either.
   */
  method OfferAnchor(evidence: Evidence, required: bool, authority: nat -> Reply, prompt: Option<nat -> Response>)
    returns (outcome: Outcome, trace: seq<Event>)
    ensures trace == [] <==> evidence.DoesNotStand? || (evidence.NothingAttached? && required)
    ensures trace == [] ==> outcome == if evidence.DoesNotStand? then Unrecordable else UnsignedRefused
    ensures trace != [] ==> Exchange(trace, evidence.Signed?, authority, prompt) && Tells(outcome, trace[|trace| - 1])
  {
    if evidence.DoesNotStand? {
      return Unrecordable, [];
    }
    if evidence.NothingAttached? && required {
      return UnsignedRefused, [];
    }
    var reply := authority(0);
    TraceGrows([], Offered(evidence.Signed?, reply), authority, prompt);
    trace := [Offered(evidence.Signed?, reply)];
    assert [] + trace == trace;
    if !reply.Warns? {
      Concludes(trace, evidence.Signed?, authority, prompt);
      return Conclusion(trace), trace;
    }
    var token := reply.token;
    for attempt := 0 to PROMPT_LIMIT
      invariant Underway(trace, authority, prompt) && |trace| == 2 * attempt + 1
      invariant Answered(trace[|trace| - 1], Warns(token))
      invariant trace[0] == Offered(evidence.Signed?, authority(0))
    {
      var response := ResponseTo(prompt, attempt);
      TraceGrows(trace, Shown(token, response), authority, prompt);
      trace := trace + [Shown(token, response)];
      if response != Confirm {
        Concludes(trace, evidence.Signed?, authority, prompt);
        return if response == Decline then Declined else ConfirmationRequired, trace;
      }
      reply := authority(attempt + 1);
      TraceGrows(trace, Confirmed(token, reply), authority, prompt);
      trace := trace + [Confirmed(token, reply)];
      if !reply.Warns? {
        Concludes(trace, evidence.Signed?, authority, prompt);
        return Conclusion(trace), trace;
      }
      token := reply.token;
    }
    assert Legal(trace, |trace| - 1);
    Concludes(trace, evidence.Signed?, authority, prompt);
    outcome := ConfirmationRequired;
  }

  /** What is known of the publisher: the registry is asked for a published package, the ledger otherwise. */
  method PackageSignature(source: Source) returns (e: Evidence)
    ensures e.Signed? <==> match source
                           case Published(attached) => exists r :: Stands(attached, r)
                           case Reenrolment(held, _) => held.HeldSigned? && held.sameImage && held.stands
                           case Takeover(held, _, _) => held.HeldSigned? && held.sameImage && held.stands
    ensures e.NothingAttached? <==> match source
                                    case Published(attached) => attached == Listing([])
                                    case Reenrolment(held, _) => !(held.HeldSigned? && held.sameImage && held.stands)
                                    case Takeover(held, _, _) => !(held.HeldSigned? && held.sameImage && held.stands)
  {
    match source
    case Published(attached) => e := VerifiedPackageSignature(attached);
    case _ => e := if Carried(source.held) then Signed(Referrer(0, Authorized)) else NothingAttached;
  }

  /** One enrolment from its source to its outcome. */
  method Enrol(source: Source, required: bool, authority: nat -> Reply, prompt: Option<nat -> Response>)
    returns (outcome: Outcome, trace: seq<Event>)
    ensures trace != [] ==> exists signed :: Exchange(trace, signed, authority, prompt)
    ensures trace != [] ==> Tells(outcome, trace[|trace| - 1])
    ensures outcome.Recorded? ==> trace != []
    ensures trace != [] && trace[0].Offered? && !trace[0].signed <==> OffersUnsigned(source, required)
    ensures trace != [] && trace[0].Offered? && trace[0].signed <==> OffersSigned(source)
    ensures outcome.Unchanged? <==> !source.Published? && !source.held.NotHeld? && source.sameLaunch
    ensures Unoffered(source) && !outcome.Unchanged? ==> outcome.Unrecordable?
    ensures trace == [] && !Unoffered(source) ==>
            outcome == if OffersUnsigned(source, false) then UnsignedRefused else Unrecordable
  {
    trace := [];
    if !source.Published? {
      if !source.held.NotHeld? && source.sameLaunch {
        return Unchanged, [];
      }
      if source.Takeover? && !source.asks.WouldNot? {
        return Unrecordable, [];
      }
    }
    var evidence := PackageSignature(source);
    outcome, trace := OfferAnchor(evidence, required, authority, prompt);
  }

  /** A recorded enrolment that went through a warning was confirmed for the token the authority gave last. */
  lemma RecordedWasConfirmed(trace: seq<Event>)
    requires FollowsProtocol(trace) && |trace| > 1 && Answered(trace[|trace| - 1], Accepts)
    ensures var n := |trace|;
            n >= 3 && trace[n - 1].Confirmed? && trace[n - 2] == Shown(trace[n - 1].token, Confirm)
            && Answered(trace[n - 3], Warns(trace[n - 1].token))
  {
    assert Legal(trace, |trace| - 1);
    assert Legal(trace, |trace| - 2);
  }
}
