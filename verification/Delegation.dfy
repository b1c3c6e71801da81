/** Time ranges of delegations. */
module TimeRanges {
  import opened Options

  type u64 = n: nat | n < 0x1_0000_0000_0000_0000

  datatype TimeRange = TimeRange(notBefore: Option<u64>, expiration: Option<u64>) {
    predicate Contains(time: u64) {
      && !(notBefore.Some? && time < notBefore.value)
      && !(expiration.Some? && time >= expiration.value)
    }

    predicate Overlaps(required: TimeRange) {
      && !(required.notBefore.Some? && expiration.Some? && expiration.value <= required.notBefore.value)
      && !(required.expiration.Some? && notBefore.Some? && notBefore.value >= required.expiration.value)
    }

    /** At least as wide as the requirement, where the requirement says anything. */
    predicate Covers(required: TimeRange) {
      && !(required.notBefore.Some? && notBefore.Some? && notBefore.value > required.notBefore.value)
      && !(required.expiration.Some? && expiration.Some? && expiration.value < required.expiration.value)
    }

    function Intersect(other: TimeRange): TimeRange {
      TimeRange(
        match (notBefore, other.notBefore)
        case (Some(a), Some(b)) => Some(if a >= b then a else b)
        case (Some(a), None) => Some(a)
        case (None, b) => b,
        match (expiration, other.expiration)
        case (Some(a), Some(b)) => Some(if a <= b then a else b)
        case (Some(a), None) => Some(a)
        case (None, b) => b)
    }

    predicate NonEmpty() {
      expiration.Some? ==> (if notBefore.Some? then notBefore.value else 0) < expiration.value
    }
  }

  const UNBOUNDED := TimeRange(None, None)

  /** The intersection of a sequence of ranges. */
  function Meet(rs: seq<TimeRange>): TimeRange {
    if rs == [] then UNBOUNDED else rs[0].Intersect(Meet(rs[1..]))
  }

  lemma {:induction false} MeetContains(rs: seq<TimeRange>, time: u64)
    ensures Meet(rs).Contains(time) <==> forall i :: 0 <= i < |rs| ==> rs[i].Contains(time)
  {
    if rs != [] {
      MeetContains(rs[1..], time);
      assert forall i :: 1 <= i < |rs| ==> rs[i] == rs[1..][i - 1];
      assert forall i :: 0 <= i < |rs[1..]| ==> rs[1..][i] == rs[i + 1];
    }
  }

  lemma {:induction false} MeetCovers(rs: seq<TimeRange>, required: TimeRange)
    requires forall i :: 0 <= i < |rs| ==> rs[i].Covers(required)
    ensures Meet(rs).Covers(required)
  {
    if rs != [] {
      MeetCovers(rs[1..], required);
    }
  }

  /** Folding ranges one by one into an accumulator meets them all. */
  function FoldFrom(acc: TimeRange, rs: seq<TimeRange>): TimeRange
    decreases |rs|
  {
    if rs == [] then acc else FoldFrom(acc.Intersect(rs[0]), rs[1..])
  }

  lemma {:induction false} FoldIsMeet(acc: TimeRange, rs: seq<TimeRange>)
    ensures FoldFrom(acc, rs) == acc.Intersect(Meet(rs))
    decreases |rs|
  {
    if rs != [] {
      FoldIsMeet(acc.Intersect(rs[0]), rs[1..]);
    }
  }

  predicate Includes(a: TimeRange, b: TimeRange) {
    forall time: u64 :: b.Contains(time) ==> a.Contains(time)
  }

  /** Covering a requirement is including it, except that a bound which the requirement leaves open is not looked at. */
  lemma {:induction false} CoversIsInclusion(a: TimeRange, required: TimeRange)
    requires required.NonEmpty()
    ensures Includes(a, required) <==>
            && a.Covers(required)
            && (a.notBefore.Some? && required.notBefore.None? ==> a.notBefore.value == 0)
            && (a.expiration.Some? ==> required.expiration.Some?)
  {
    var first: u64 := if required.notBefore.Some? then required.notBefore.value else 0;
    var last: u64 := if required.expiration.Some? then required.expiration.value - 1 else 0xFFFF_FFFF_FFFF_FFFF;
    assert required.Contains(first) && required.Contains(last);
  }

  /** Two ranges that are not empty overlap exactly when they share an instant. */
  lemma {:induction false} OverlapIsSharedInstant(a: TimeRange, b: TimeRange)
    requires a.NonEmpty() && b.NonEmpty()
    ensures a.Overlaps(b) <==> exists time: u64 :: a.Contains(time) && b.Contains(time)
  {
    var latest: u64 := match (a.notBefore, b.notBefore)
                       case (Some(x), Some(y)) => if x >= y then x else y
                       case (Some(x), None) => x
                       case (None, Some(y)) => y
                       case (None, None) => 0;
    if a.Overlaps(b) {
      assert a.Contains(latest) && b.Contains(latest);
    }
  }
}

/** Resolving a chain of delegations from a subject to the principal that claims access. */
module Delegation {
  import opened Options
  import opened TimeRanges

  const MAX_DEPTH := 10

  type Did = string

  const ANY_SUBJECT: Did := "did:_:_"

  datatype Certificate = Certificate(id: nat, issuer: Did, audience: Did, subject: Option<Did>)

  datatype Listing = Failed | Listed(certificates: seq<Certificate>)

  /** A certificate store: what it lists for an audience and a subject (or none,
      for delegations over any subject), and what each certificate grants. */
  datatype Store = Store(list: (Did, Option<Did>) -> Listing, verify: Certificate -> Option<TimeRange>) {
    /** The listing contract: certificates are listed under their audience. */
    ghost predicate Indexed() {
      forall did, subject, c :: list(did, subject).Listed? && c in list(did, subject).certificates ==> c.audience == did
    }
  }

  datatype Claim = Claim(principal: Did, subject: Did, duration: TimeRange)

  datatype Outcome = Proved(proofs: seq<Certificate>, duration: TimeRange) | Denied | Broken

  // ---- What a proof is

  predicate Usable(store: Store, claim: Claim, c: Certificate) {
    store.verify(c).Some? && store.verify(c).value.Covers(claim.duration)
  }

  predicate Offered(store: Store, claim: Claim, c: Certificate) {
    var specific, powerline := store.list(c.audience, Some(claim.subject)), store.list(c.audience, None);
    (specific.Listed? && c in specific.certificates) || (powerline.Listed? && c in powerline.certificates)
  }

  /** Certificates, each usable and handing authority to the issuer of the next,
      the last one to the principal. */
  predicate Links(store: Store, claim: Claim, certs: seq<Certificate>) {
    && (forall i :: 0 <= i < |certs| ==> Usable(store, claim, certs[i]) && Offered(store, claim, certs[i]))
    && (forall i :: 0 <= i < |certs| - 1 ==> certs[i].audience == certs[i + 1].issuer)
    && (certs != [] ==> certs[|certs| - 1].audience == claim.principal)
  }

  /** A chain of delegations from the subject to the principal. */
  predicate Chain(store: Store, claim: Claim, certs: seq<Certificate>) {
    certs != [] && Links(store, claim, certs) && certs[0].issuer == claim.subject
  }

  function Range(store: Store, c: Certificate): TimeRange {
    if store.verify(c).Some? then store.verify(c).value else UNBOUNDED
  }

  /** The ranges the certificates themselves grant. */
  function Ranges(store: Store, certs: seq<Certificate>): (r: seq<TimeRange>)
    ensures |r| == |certs| && forall i :: 0 <= i < |r| ==> r[i] == Range(store, certs[i])
  {
    seq(|certs|, i requires 0 <= i < |certs| => Range(store, certs[i]))
  }

  // ---- The search

  /** Where a partial chain has to be continued from. */
  datatype Entry = Entry(audience: Did, chain: seq<(Certificate, TimeRange)>, range: TimeRange, depth: nat)

  function Certs(chain: seq<(Certificate, TimeRange)>): (r: seq<Certificate>)
    ensures |r| == |chain| && forall i :: 0 <= i < |r| ==> r[i] == chain[i].0
  {
    seq(|chain|, i requires 0 <= i < |chain| => chain[i].0)
  }

  function Accumulated(chain: seq<(Certificate, TimeRange)>): (r: seq<TimeRange>)
    ensures |r| == |chain| && forall i :: 0 <= i < |r| ==> r[i] == chain[i].1
  {
    seq(|chain|, i requires 0 <= i < |chain| => chain[i].1)
  }

  /** Folding the ranges stored along a chain, which are themselves accumulated. */
  function Effective(chain: seq<(Certificate, TimeRange)>): TimeRange {
    FoldFrom(UNBOUNDED, Accumulated(chain))
  }

  predicate Kept(store: Store, claim: Claim, direct: bool, c: Certificate) {
    Usable(store, claim, c) && (c.issuer == claim.subject <==> direct)
  }

  function Keep(store: Store, claim: Claim, certs: seq<Certificate>, direct: bool): (r: seq<Certificate>)
    ensures forall c :: c in r <==> c in certs && Kept(store, claim, direct, c)
  {
    if certs == [] then []
    else
      var front, last := certs[..|certs| - 1], certs[|certs| - 1];
      assert certs == front + [last];
      Keep(store, claim, front, direct) + if Kept(store, claim, direct, last) then [last] else []
  }

  /** The certificates to follow from an audience: subject-specific before
      powerline, and of all of them those issued by the subject first. */
  function Candidates(store: Store, claim: Claim, audience: Did): Option<seq<Certificate>> {
    var specific, powerline := store.list(audience, Some(claim.subject)), store.list(audience, None);
    if specific.Failed? || powerline.Failed? then None
    else
      var all := specific.certificates + powerline.certificates;
      Some(Keep(store, claim, all, true) + Keep(store, claim, all, false))
  }

  lemma {:induction false} CandidatesAre(store: Store, claim: Claim, audience: Did, c: Certificate)
    requires store.Indexed() && Candidates(store, claim, audience).Some?
    ensures c in Candidates(store, claim, audience).value <==>
              c.audience == audience && Usable(store, claim, c) && Offered(store, claim, c)
  {
  }

  // ---- Termination: how many entries wait at each depth

  function Count(queue: seq<Entry>, depth: nat): nat {
    if queue == [] then 0
    else Count(queue[..|queue| - 1], depth) + if queue[|queue| - 1].depth == depth then 1 else 0
  }

  lemma {:induction false} CountOfPush(queue: seq<Entry>, e: Entry)
    ensures forall depth: nat :: Count(queue + [e], depth) == Count(queue, depth) + if e.depth == depth then 1 else 0
  {
    assert (queue + [e])[..|queue|] == queue;
  }

  // ---- What the queue holds

  /** A partial chain that ends at the principal and starts below the audience to
      continue from; its range is the meet of what its certificates grant. */
  predicate Sound(store: Store, claim: Claim, e: Entry) {
    var certs := Certs(e.chain);
    && e.depth == |e.chain|
    && Links(store, claim, certs)
    && (forall i :: 0 <= i < |certs| ==> certs[i].issuer != claim.subject)
    && e.audience == (if certs == [] then claim.principal else certs[0].issuer)
    && e.range == Effective(e.chain) == Meet(Ranges(store, certs))
  }

  function Extend(store: Store, e: Entry, c: Certificate): seq<(Certificate, TimeRange)> {
    [(c, e.range.Intersect(Range(store, c)))] + e.chain
  }

  lemma {:induction false} LinksCons(store: Store, claim: Claim, c: Certificate, certs: seq<Certificate>)
    requires Links(store, claim, certs) && Usable(store, claim, c) && Offered(store, claim, c)
    requires c.audience == if certs == [] then claim.principal else certs[0].issuer
    ensures Links(store, claim, [c] + certs)
  {
    var all := [c] + certs;
    assert forall i :: 1 <= i < |all| ==> all[i] == certs[i - 1];
  }

  lemma {:induction false} ExtendCerts(store: Store, e: Entry, c: Certificate)
    ensures Certs(Extend(store, e, c)) == [c] + Certs(e.chain)
    ensures Accumulated(Extend(store, e, c)) == [e.range.Intersect(Range(store, c))] + Accumulated(e.chain)
  {
  }

  lemma {:induction false} RangesCons(store: Store, c: Certificate, certs: seq<Certificate>)
    ensures Meet(Ranges(store, [c] + certs)) == Range(store, c).Intersect(Meet(Ranges(store, certs)))
  {
    var raw := Ranges(store, [c] + certs);
    assert raw[0] == Range(store, c) && raw[1..] == Ranges(store, certs);
  }

  lemma {:induction false} FoldCons(r: TimeRange, rs: seq<TimeRange>)
    ensures FoldFrom(UNBOUNDED, [r] + rs) == r.Intersect(FoldFrom(UNBOUNDED, rs))
  {
    FoldIsMeet(UNBOUNDED, rs);
    FoldIsMeet(UNBOUNDED, [r] + rs);
    assert ([r] + rs)[1..] == rs;
  }

  lemma {:induction false} Absorb(m: TimeRange, r: TimeRange)
    ensures m.Intersect(r).Intersect(m) == r.Intersect(m)
  {
  }

  /** Folding accumulated ranges gives the meet of the raw ones. */
  lemma {:induction false} ExtendRange(store: Store, e: Entry, c: Certificate)
    requires e.range == Effective(e.chain) == Meet(Ranges(store, Certs(e.chain)))
    ensures Effective(Extend(store, e, c)) == Meet(Ranges(store, [c] + Certs(e.chain)))
  {
    var m, r := e.range, Range(store, c);
    ExtendCerts(store, e, c);
    FoldCons(m.Intersect(r), Accumulated(e.chain));
    Absorb(m, r);
    RangesCons(store, c, Certs(e.chain));
  }

  lemma {:induction false} ExtendSound(store: Store, claim: Claim, e: Entry, c: Certificate)
    requires Sound(store, claim, e) && c.audience == e.audience && Usable(store, claim, c) && Offered(store, claim, c)
    ensures Links(store, claim, [c] + Certs(e.chain))
    ensures c.issuer != claim.subject ==>
              Sound(store, claim, Entry(c.issuer, Extend(store, e, c), Effective(Extend(store, e, c)), e.depth + 1))
  {
    ExtendCerts(store, e, c);
    ExtendRange(store, e, c);
    LinksCons(store, claim, c, Certs(e.chain));
  }

  /** The entry is a tail of this chain, so following the chain continues it. */
  predicate Heads(e: Entry, chain: seq<Certificate>) {
    |e.chain| < |chain| && chain[|chain| - |e.chain|..] == Certs(e.chain)
  }

  ghost predicate Covered(queue: seq<Entry>, chain: seq<Certificate>) {
    exists e :: e in queue && Heads(e, chain)
  }

  /** Every chain short enough to be found is still ahead of some entry. */
  ghost predicate Complete(store: Store, claim: Claim, queue: seq<Entry>) {
    forall chain :: Chain(store, claim, chain) && |chain| <= MAX_DEPTH ==> Covered(queue, chain)
  }

  lemma {:induction false} TailStep(chain: seq<Certificate>, n: nat)
    requires 0 < n <= |chain|
    ensures chain[n - 1..] == [chain[n - 1]] + chain[n..]
  {
  }

  /** The certificate a chain uses next after one of its tails. */
  lemma {:induction false} NextLink(store: Store, claim: Claim, e: Entry, chain: seq<Certificate>)
    requires Sound(store, claim, e) && Chain(store, claim, chain) && Heads(e, chain)
    ensures var c := chain[|chain| - |e.chain| - 1];
            && c.audience == e.audience && Usable(store, claim, c) && Offered(store, claim, c)
            && chain[|chain| - |e.chain| - 1..] == [c] + Certs(e.chain)
            && (c.issuer != claim.subject ==> |chain| > |e.chain| + 1)
  {
    var n := |chain| - |e.chain|;
    TailStep(chain, n);
    if e.chain != [] {
      assert chain[n] == chain[n..][0] == Certs(e.chain)[0];
    }
  }

  /** What following an entry has pushed so far. */
  ghost predicate Pushed(store: Store, claim: Claim, e: Entry, cs: seq<Certificate>, queue: seq<Entry>) {
    forall c :: c in cs ==> c.issuer != claim.subject && Child(store, e, c) in queue
  }

  function Child(store: Store, e: Entry, c: Certificate): Entry {
    Entry(c.issuer, Extend(store, e, c), Effective(Extend(store, e, c)), e.depth + 1)
  }

  lemma {:induction false} ChildHeads(store: Store, e: Entry, c: Certificate, chain: seq<Certificate>)
    requires |chain| > |e.chain| + 1 && chain[|chain| - |e.chain| - 1..] == [c] + Certs(e.chain)
    ensures Heads(Child(store, e, c), chain)
  {
    var child := Child(store, e, c);
    ExtendCerts(store, e, c);
    assert |child.chain| == |e.chain| + 1;
    assert |chain| - |child.chain| == |chain| - |e.chain| - 1;
  }

  lemma {:induction false} ChildCovers(store: Store, claim: Claim, e: Entry, chain: seq<Certificate>, queue: seq<Entry>,
          cs: seq<Certificate>)
    requires store.Indexed() && Sound(store, claim, e) && Candidates(store, claim, e.audience) == Some(cs)
    requires Pushed(store, claim, e, cs, queue) && Chain(store, claim, chain) && Heads(e, chain)
    ensures Covered(queue, chain)
  {
    NextLink(store, claim, e, chain);
    var c := chain[|chain| - |e.chain| - 1];
    CandidatesAre(store, claim, e.audience, c);
    ChildHeads(store, e, c, chain);
  }

  /** Replacing an entry by its children keeps every chain ahead of some entry. */
  lemma {:induction false} ChildrenCover(store: Store, claim: Claim, rest: seq<Entry>, e: Entry, queue: seq<Entry>,
          cs: seq<Certificate>)
    requires store.Indexed() && Sound(store, claim, e) && Complete(store, claim, rest + [e])
    requires Candidates(store, claim, e.audience) == Some(cs)
    requires (forall x :: x in rest ==> x in queue) && Pushed(store, claim, e, cs, queue)
    ensures Complete(store, claim, queue)
  {
    hide Sound, Chain, Candidates, Pushed, Heads;
    forall chain | Chain(store, claim, chain) && |chain| <= MAX_DEPTH ensures Covered(queue, chain) {
      assert Covered(rest + [e], chain);
      var x :| x in rest + [e] && Heads(x, chain);
      if x in rest {
        assert x in queue;
      } else {
        ChildCovers(store, claim, e, chain, queue, cs);
      }
    }
  }

  /** An entry as deep as the limit is ahead of no chain within it. */
  lemma {:induction false} DeepEntryCoversNothing(store: Store, claim: Claim, rest: seq<Entry>, e: Entry)
    requires Sound(store, claim, e) && e.depth >= MAX_DEPTH && Complete(store, claim, rest + [e])
    ensures Complete(store, claim, rest)
  {
    forall chain | Chain(store, claim, chain) && |chain| <= MAX_DEPTH ensures Covered(rest, chain) {
      assert Covered(rest + [e], chain);
    }
  }

  // ---- The search itself

  predicate SelfEvident(claim: Claim) {
    claim.principal == claim.subject || claim.subject == ANY_SUBJECT
  }

  /** A chain within the limit, the subject issuing only its first certificate, valid
      whenever all of its certificates are and for all of the claimed duration. */
  predicate IsProof(store: Store, claim: Claim, proofs: seq<Certificate>, duration: TimeRange) {
    && Chain(store, claim, proofs) && |proofs| <= MAX_DEPTH
    && (forall i :: 0 < i < |proofs| ==> proofs[i].issuer != claim.subject)
    && duration == Meet(Ranges(store, proofs))
    && duration.Covers(claim.duration)
  }

  // ---- Which proof is found

  /** The certificate at a position of what is listed for an audience: subject-specific certificates, then powerline
      ones. */
  function Place(store: Store, claim: Claim, did: Did, p: nat): Option<Certificate> {
    var specific, powerline := store.list(did, Some(claim.subject)), store.list(did, None);
    if specific.Failed? || powerline.Failed? then None
    else if p < |specific.certificates| then Some(specific.certificates[p])
    else if p < |specific.certificates| + |powerline.certificates|
    then Some(powerline.certificates[p - |specific.certificates|])
    else None
  }

  predicate Unlisted(store: Store, claim: Claim, did: Did) {
    store.list(did, Some(claim.subject)).Failed? || store.list(did, None).Failed?
  }

  /** A usable certificate at this position, issued by the subject or not. */
  predicate LinkAt(store: Store, claim: Claim, did: Did, p: nat, direct: bool) {
    Place(store, claim, did, p).Some? && Kept(store, claim, direct, Place(store, claim, did, p).value)
  }

  function AudienceOf(claim: Claim, chain: seq<Certificate>): Did {
    if chain == [] then claim.principal else chain[0].issuer
  }

  /** The partial chain that following these positions from the principal builds, none of its certificates issued by the
      subject. */
  function Reached(store: Store, claim: Claim, path: seq<nat>): Option<seq<Certificate>> {
    if path == [] then Some([])
    else match Reached(store, claim, path[..|path| - 1])
      case None => None
      case Some(chain) =>
        var did, p := AudienceOf(claim, chain), path[|path| - 1];
        if LinkAt(store, claim, did, p, false) then Some([Place(store, claim, did, p).value] + chain) else None
  }

  predicate Visits(store: Store, claim: Claim, path: seq<nat>) {
    |path| < MAX_DEPTH && Reached(store, claim, path).Some?
  }

  function DidAt(store: Store, claim: Claim, path: seq<nat>): Did
    requires Visits(store, claim, path)
  {
    AudienceOf(claim, Reached(store, claim, path).value)
  }

  /** Listed without error, and holding no grant by the subject. */
  ghost predicate Barren(store: Store, claim: Claim, path: seq<nat>)
    requires Visits(store, claim, path)
  {
    var did := DidAt(store, claim, path);
    !Unlisted(store, claim, did) && forall p: nat :: !LinkAt(store, claim, did, p, true)
  }

  /** They part at some position, where this one goes by the later certificate. */
  predicate RightOf(a: seq<nat>, b: seq<nat>) {
    exists k :: 0 <= k < |a| && k < |b| && a[..k] == b[..k] && a[k] > b[k]
  }

  /** The order of a last-in first-out search: a partial chain before its continuations, and of its continuations those
      by the certificate listed last before the others. */
  predicate Sooner(a: seq<nat>, b: seq<nat>) {
    a < b || RightOf(a, b)
  }

  /** Every place visited sooner is barren. */
  ghost predicate Foremost(store: Store, claim: Claim, path: seq<nat>) {
    && Visits(store, claim, path)
    && forall q :: Visits(store, claim, q) && Sooner(q, path) ==> Barren(store, claim, q)
  }

  /** The grant listed first at a place. */
  ghost predicate GrantAt(store: Store, claim: Claim, did: Did, p: nat) {
    LinkAt(store, claim, did, p, true) && forall k :: 0 <= k < p ==> !LinkAt(store, claim, did, k, true)
  }

  /** This is the proof of the first grant at the foremost place that is not barren. */
  ghost predicate ProofAt(store: Store, claim: Claim, path: seq<nat>, p: nat, proofs: seq<Certificate>) {
    && Foremost(store, claim, path) && GrantAt(store, claim, DidAt(store, claim, path), p)
    && proofs == [Place(store, claim, DidAt(store, claim, path), p).value] + Reached(store, claim, path).value
  }

  ghost predicate FailsAt(store: Store, claim: Claim, path: seq<nat>) {
    Foremost(store, claim, path) && Unlisted(store, claim, DidAt(store, claim, path))
  }

  /** The outcome that the order calls for: the first place that is not barren decides. */
  ghost predicate Resolves(store: Store, claim: Claim, r: Outcome) {
    if SelfEvident(claim) then r == Proved([], UNBOUNDED)
    else match r
      case Denied => forall q :: Visits(store, claim, q) ==> Barren(store, claim, q)
      case Broken => exists path :: FailsAt(store, claim, path)
      case Proved(proofs, duration) =>
        (exists path, p :: ProofAt(store, claim, path, p, proofs)) && duration == Meet(Ranges(store, proofs))
  }

  lemma {:induction false} SoonerIsTotal(a: seq<nat>, b: seq<nat>)
    ensures a == b || Sooner(a, b) || Sooner(b, a)
  {
    var k := CommonPrefix(a, b);
    if k == |a| {
      assert a == a[..k] && a <= b;
    } else if k == |b| {
      assert b == b[..k] && b <= a;
    }
  }

  lemma {:induction false} CommonPrefix(a: seq<nat>, b: seq<nat>) returns (k: nat)
    ensures k <= |a| && k <= |b| && a[..k] == b[..k] && (k < |a| && k < |b| ==> a[k] != b[k])
    decreases |a|
  {
    if a == [] || b == [] || a[0] != b[0] {
      k := 0;
    } else {
      var rest := CommonPrefix(a[1..], b[1..]);
      k := rest + 1;
      assert a[..k] == [a[0]] + a[1..][..rest] && b[..k] == [b[0]] + b[1..][..rest];
    }
  }

  /** Only one place comes foremost among those that are not barren. */
  lemma {:induction false} ForemostOnce(store: Store, claim: Claim, a: seq<nat>, b: seq<nat>)
    requires Foremost(store, claim, a) && !Barren(store, claim, a)
    requires Foremost(store, claim, b) && !Barren(store, claim, b)
    ensures a == b
  {
    hide Barren, Sooner, Visits;
    SoonerIsTotal(a, b);
  }

  lemma {:induction false} FailsOrGrants(store: Store, claim: Claim, path: seq<nat>, p: nat)
    requires Visits(store, claim, path)
    ensures Unlisted(store, claim, DidAt(store, claim, path)) ==> !Barren(store, claim, path)
    ensures LinkAt(store, claim, DidAt(store, claim, path), p, true) ==> !Barren(store, claim, path)
    ensures Unlisted(store, claim, DidAt(store, claim, path)) ==>
            !LinkAt(store, claim, DidAt(store, claim, path), p, true)
  {
  }

  lemma {:induction false} GrantOnce(store: Store, claim: Claim, did: Did, p: nat, q: nat)
    requires GrantAt(store, claim, did, p) && GrantAt(store, claim, did, q)
    ensures p == q
  {
    hide LinkAt;
  }

  /** The order leaves no choice: a claim has one outcome. */
  lemma {:induction false} ResolvesOnce(store: Store, claim: Claim, r: Outcome, s: Outcome)
    requires Resolves(store, claim, r) && Resolves(store, claim, s)
    ensures r == s
  {
    hide Foremost, Unlisted, LinkAt, Place, Reached, Barren, Visits, DidAt, GrantAt, Ranges;
    if !SelfEvident(claim) {
      var a, p := Decider(store, claim, r);
      var b, q := Decider(store, claim, s);
      if !r.Denied? && !s.Denied? {
        ForemostOnce(store, claim, a, b);
        DecidedAt(store, claim, a, p, q, r, s);
      } else if r.Denied? && !s.Denied? {
        ForemostVisits(store, claim, b);
      } else if s.Denied? && !r.Denied? {
        ForemostVisits(store, claim, a);
      }
    }
  }

  lemma {:induction false} ForemostVisits(store: Store, claim: Claim, path: seq<nat>)
    requires Foremost(store, claim, path)
    ensures Visits(store, claim, path)
  {
  }

  /** The place that decides an outcome. */
  ghost predicate DecidesAt(store: Store, claim: Claim, path: seq<nat>, p: nat, r: Outcome) {
    match r
    case Denied => true
    case Broken => FailsAt(store, claim, path)
    case Proved(proofs, duration) =>
      ProofAt(store, claim, path, p, proofs) && duration == Meet(Ranges(store, proofs))
  }

  lemma {:induction false} Decider(store: Store, claim: Claim, r: Outcome) returns (path: seq<nat>, p: nat)
    requires Resolves(store, claim, r) && !SelfEvident(claim)
    ensures DecidesAt(store, claim, path, p, r)
    ensures !r.Denied? ==> Foremost(store, claim, path) && !Barren(store, claim, path)
  {
    hide Foremost, Unlisted, LinkAt, Place, Reached, Barren, Visits, DidAt, Ranges;
    path, p := [], 0;
    match r {
      case Denied =>
      case Broken =>
        path :| FailsAt(store, claim, path);
        ForemostVisits(store, claim, path);
        FailsOrGrants(store, claim, path, 0);
      case Proved(proofs, duration) =>
        path, p :| ProofAt(store, claim, path, p, proofs);
        ForemostVisits(store, claim, path);
        FailsOrGrants(store, claim, path, p);
    }
  }

  lemma {:induction false} DecidedAt(store: Store, claim: Claim, path: seq<nat>, p: nat, q: nat, r: Outcome, s: Outcome)
    requires DecidesAt(store, claim, path, p, r) && DecidesAt(store, claim, path, q, s) && !r.Denied? && !s.Denied?
    ensures r == s
  {
    hide Unlisted, LinkAt, Place, Reached, Barren, Visits, DidAt, Ranges;
    FailsOrGrants(store, claim, path, p);
    FailsOrGrants(store, claim, path, q);
    if r.Proved? && s.Proved? {
      GrantOnce(store, claim, DidAt(store, claim, path), p, q);
    }
  }

  /** The first of these certificates that is usable and issued by the subject. */
  ghost predicate Earliest(store: Store, claim: Claim, certs: seq<Certificate>, i: nat) {
    && i < |certs| && Kept(store, claim, true, certs[i])
    && forall k :: 0 <= k < i ==> !Kept(store, claim, true, certs[k])
  }

  /** A grant to the principal itself is found as a chain of one: the first that is listed for the subject, else the
      first powerline one. */
  lemma {:induction false} DirectGrant(store: Store, claim: Claim, r: Outcome, i: nat)
    requires Resolves(store, claim, r) && !SelfEvident(claim) && !Unlisted(store, claim, claim.principal)
    ensures var specific := store.list(claim.principal, Some(claim.subject)).certificates;
            var powerline := store.list(claim.principal, None).certificates;
            && (Earliest(store, claim, specific, i) ==> r == Proved([specific[i]], Range(store, specific[i])))
            && ((forall c :: c in specific ==> !Kept(store, claim, true, c)) && Earliest(store, claim, powerline, i) ==>
                r == Proved([powerline[i]], Range(store, powerline[i])))
  {
    hide Kept, Resolves, UNBOUNDED, Range;
    var specific := store.list(claim.principal, Some(claim.subject)).certificates;
    var powerline := store.list(claim.principal, None).certificates;
    if Earliest(store, claim, specific, i) {
      assert forall k :: 0 <= k <= i ==> Place(store, claim, claim.principal, k) == Some(specific[k]);
      FoundAtOnce(store, claim, r, i);
    } else if (forall c :: c in specific ==> !Kept(store, claim, true, c)) && Earliest(store, claim, powerline, i) {
      forall k | 0 <= k < |specific| + i ensures !LinkAt(store, claim, claim.principal, k, true) {
        if k < |specific| {
          assert specific[k] in specific;
        }
      }
      FoundAtOnce(store, claim, r, |specific| + i);
    }
  }

  lemma {:induction false} FoundAtOnce(store: Store, claim: Claim, r: Outcome, p: nat)
    requires Resolves(store, claim, r) && !SelfEvident(claim) && GrantAt(store, claim, claim.principal, p)
    ensures var c := Place(store, claim, claim.principal, p).value; r == Proved([c], Range(store, c))
  {
    hide Place, Kept, Range;
    var c := Place(store, claim, claim.principal, p).value;
    assert [c] == [c] + [];
    assert ProofAt(store, claim, [], p, [c]);
    RangeOfOne(store, c);
    ResolvesOnce(store, claim, r, Proved([c], Range(store, c)));
  }

  lemma {:induction false} RangeOfOne(store: Store, c: Certificate)
    ensures Meet(Ranges(store, [c])) == Range(store, c)
  {
    RangesCons(store, c, []);
    assert [c] + [] == [c];
    assert Ranges(store, []) == [];
  }

  lemma {:induction false} RangesCover(store: Store, claim: Claim, certs: seq<Certificate>)
    requires Links(store, claim, certs)
    ensures Meet(Ranges(store, certs)).Covers(claim.duration)
  {
    MeetCovers(Ranges(store, certs), claim.duration);
  }

  lemma {:induction false} DirectGrantIsProof(store: Store, claim: Claim, e: Entry, c: Certificate)
    requires Sound(store, claim, e) && e.depth < MAX_DEPTH
    requires c.audience == e.audience && Usable(store, claim, c) && Offered(store, claim, c) &&
             c.issuer == claim.subject
    ensures IsProof(store, claim, Certs(Extend(store, e, c)), Effective(Extend(store, e, c)))
    ensures |Extend(store, e, c)| == |e.chain| + 1
  {
    ExtendCerts(store, e, c);
    ExtendSound(store, claim, e, c);
    ExtendRange(store, e, c);
    RangesCover(store, claim, [c] + Certs(e.chain));
  }

  /** The queue after following some of an entry's candidates. */
  ghost predicate Following(store: Store, claim: Claim, e: Entry, rest: seq<Entry>, cs: seq<Certificate>,
          queue: seq<Entry>)
    requires e.depth < MAX_DEPTH
  {
    && (forall x :: x in queue ==> Sound(store, claim, x) && x.depth <= MAX_DEPTH)
    && (forall x :: x in rest ==> x in queue) && Pushed(store, claim, e, cs, queue)
    && (forall depth: nat :: depth <= e.depth ==> Count(queue, depth) == Count(rest, depth))
  }

  lemma {:induction false} PushedOne(store: Store, claim: Claim, e: Entry, cs: seq<Certificate>, n: nat,
          queue: seq<Entry>)
    requires n < |cs| && Pushed(store, claim, e, cs[..n], queue) && cs[n].issuer != claim.subject
    ensures Pushed(store, claim, e, cs[..n + 1], queue + [Child(store, e, cs[n])])
  {
    assert cs[..n + 1] == cs[..n] + [cs[n]];
  }

  lemma {:induction false} FollowOne(store: Store, claim: Claim, e: Entry, rest: seq<Entry>, cs: seq<Certificate>,
          n: nat, queue: seq<Entry>)
    requires Sound(store, claim, e) && e.depth < MAX_DEPTH && n < |cs|
    requires Following(store, claim, e, rest, cs[..n], queue)
    requires cs[n].audience == e.audience && Usable(store, claim, cs[n]) && Offered(store, claim, cs[n]) &&
             cs[n].issuer != claim.subject
    ensures Following(store, claim, e, rest, cs[..n + 1], queue + [Child(store, e, cs[n])])
  {
    ExtendSound(store, claim, e, cs[n]);
    PushedOne(store, claim, e, cs, n, queue);
    CountOfPush(queue, Child(store, e, cs[n]));
  }

  lemma {:induction false} FollowStarts(store: Store, claim: Claim, e: Entry, rest: seq<Entry>)
    requires e.depth < MAX_DEPTH && forall x :: x in rest ==> Sound(store, claim, x) && x.depth <= MAX_DEPTH
    ensures Following(store, claim, e, rest, [], rest)
  {
  }

  /** The continuations of an entry by these certificates. */
  function Children(store: Store, e: Entry, cs: seq<Certificate>): (r: seq<Entry>)
    ensures |r| == |cs| && forall i :: 0 <= i < |r| ==> r[i] == Child(store, e, cs[i])
  {
    seq(|cs|, i requires 0 <= i < |cs| => Child(store, e, cs[i]))
  }

  lemma {:induction false} OneMoreChild(store: Store, e: Entry, rest: seq<Entry>, cs: seq<Certificate>, n: nat)
    requires n < |cs|
    ensures rest + Children(store, e, cs[..n + 1]) == rest + Children(store, e, cs[..n]) + [Child(store, e, cs[n])]
  {
    hide Child;
    assert Children(store, e, cs[..n + 1]) == Children(store, e, cs[..n]) + [Child(store, e, cs[n])];
  }

  predicate FirstGrant(claim: Claim, cs: seq<Certificate>, n: nat) {
    n < |cs| && cs[n].issuer == claim.subject && forall k :: 0 <= k < n ==> cs[k].issuer != claim.subject
  }

  /** The candidates of an audience in turn: stops at one issued by the subject,
      queues the rest. */
  method Follow(store: Store, claim: Claim, e: Entry, rest: seq<Entry>, cs: seq<Certificate>)
    returns (queue: seq<Entry>, found: Option<seq<(Certificate, TimeRange)>>)
    requires store.Indexed() && Sound(store, claim, e) && e.depth < MAX_DEPTH
    requires Candidates(store, claim, e.audience) == Some(cs)
    requires forall x :: x in rest ==> Sound(store, claim, x) && x.depth <= MAX_DEPTH
    ensures found.Some? ==>
            |found.value| == |e.chain| + 1 && IsProof(store, claim, Certs(found.value), Effective(found.value))
    ensures found.Some? <==> exists c :: c in cs && c.issuer == claim.subject
    ensures found.Some? ==> exists n: nat :: FirstGrant(claim, cs, n) && found.value == Extend(store, e, cs[n])
    ensures found.None? ==> Following(store, claim, e, rest, cs, queue) && queue == rest + Children(store, e, cs)
  {
    hide Sound, Following, IsProof, Candidates, Usable, Offered, Effective, Certs;
    FollowStarts(store, claim, e, rest);
    assert cs[..0] == [];
    queue, found := rest, None;
    assert rest == rest + Children(store, e, cs[..0]);
    for n := 0 to |cs|
      invariant Following(store, claim, e, rest, cs[..n], queue) && queue == rest + Children(store, e, cs[..n])
      invariant forall i :: 0 <= i < n ==> cs[i].issuer != claim.subject
    {
      var c := cs[n];
      assert c in cs;
      CandidatesAre(store, claim, e.audience, c);
      var chain := Extend(store, e, c);
      if c.issuer == claim.subject {
        DirectGrantIsProof(store, claim, e, c);
        assert FirstGrant(claim, cs, n);
        return queue, Some(chain);
      }
      FollowOne(store, claim, e, rest, cs, n, queue);
      OneMoreChild(store, e, rest, cs, n);
      queue := queue + [Entry(c.issuer, chain, Effective(chain), e.depth + 1)];
    }
    assert cs[..|cs|] == cs;
  }

  lemma {:induction false} TakeLast(queue: seq<Entry>)
    requires queue != []
    ensures queue == queue[..|queue| - 1] + [queue[|queue| - 1]]
    ensures queue[|queue| - 1] in queue && forall x :: x in queue[..|queue| - 1] ==> x in queue
  {
  }

  /** The state of the worklist between two rounds. */
  ghost predicate Searching(store: Store, claim: Claim, queue: seq<Entry>) {
    && (forall x :: x in queue ==> Sound(store, claim, x) && x.depth <= MAX_DEPTH)
    && Complete(store, claim, queue)
  }

  lemma {:induction false} SearchStarts(store: Store, claim: Claim)
    ensures Searching(store, claim, [Entry(claim.principal, [], UNBOUNDED, 0)])
  {
    var e := Entry(claim.principal, [], UNBOUNDED, 0);
    forall chain | Chain(store, claim, chain) && |chain| <= MAX_DEPTH ensures Covered([e], chain) {
      assert Heads(e, chain);
    }
  }

  /** Entries above some depth stay as they are, and at that depth one is gone. */
  ghost predicate OneFewerAt(depth: nat, before: seq<Entry>, after: seq<Entry>) {
    && Count(after, depth) == Count(before, depth) - 1
    && forall d: nat :: d < depth ==> Count(after, d) == Count(before, d)
  }

  /** A round trades an entry for entries one deeper. */
  lemma {:induction false} RoundAdvances(store: Store, claim: Claim, rest: seq<Entry>, e: Entry, queue: seq<Entry>,
          cs: seq<Certificate>)
    requires store.Indexed() && Searching(store, claim, rest + [e]) && e.depth < MAX_DEPTH
    requires Candidates(store, claim, e.audience) == Some(cs) && Following(store, claim, e, rest, cs, queue)
    ensures Searching(store, claim, queue) && OneFewerAt(e.depth, rest + [e], queue)
  {
    assert e in rest + [e];
    ChildrenCover(store, claim, rest, e, queue, cs);
    CountOfPush(rest, e);
  }

  lemma {:induction false} RoundDrops(store: Store, claim: Claim, rest: seq<Entry>, e: Entry)
    requires Searching(store, claim, rest + [e]) && e.depth >= MAX_DEPTH
    ensures Searching(store, claim, rest) && OneFewerAt(e.depth, rest + [e], rest)
  {
    assert e in rest + [e];
    DeepEntryCoversNothing(store, claim, rest, e);
    CountOfPush(rest, e);
  }

  /** Nothing left to follow: no chain within the limit. */
  lemma {:induction false} SearchExhausted(store: Store, claim: Claim, chain: seq<Certificate>)
    requires Searching(store, claim, [])
    ensures !(Chain(store, claim, chain) && |chain| <= MAX_DEPTH)
  {
    assert !Covered([], chain);
  }

  // ---- The worklist follows the order

  /** These are the positions, ascending, of what passes the test, and this is what stands there. */
  ghost predicate Positions<T>(all: seq<T>, test: T -> bool, kept: seq<T>, at: seq<nat>) {
    && |at| == |kept|
    && (forall k :: 0 <= k < |at| ==> at[k] < |all| && all[at[k]] == kept[k] && test(kept[k]))
    && (forall p :: 0 <= p < |all| && test(all[p]) ==> p in at)
    && forall j, k :: 0 <= j < k < |at| ==> at[j] < at[k]
  }

  lemma {:induction false} OneMorePosition<T>(all: seq<T>, test: T -> bool, kept: seq<T>, at: seq<nat>)
    requires all != [] && Positions(all[..|all| - 1], test, kept, at)
    ensures var n: nat := |all| - 1;
            if test(all[n]) then Positions(all, test, kept + [all[n]], at + [n]) else Positions(all, test, kept, at)
  {
    var n, front := |all| - 1, all[..|all| - 1];
    forall p | 0 <= p < n && test(all[p]) ensures p in at {
      assert front[p] == all[p];
    }
    forall k | 0 <= k < |at| ensures at[k] < n && all[at[k]] == kept[k] {
      assert front[at[k]] == all[at[k]];
    }
  }

  lemma {:induction false} KeepAt(store: Store, claim: Claim, certs: seq<Certificate>, direct: bool)
    returns (at: seq<nat>)
    ensures Positions(certs, c => Kept(store, claim, direct, c), Keep(store, claim, certs, direct), at)
  {
    hide Kept, Positions;
    var test := (c: Certificate) => Kept(store, claim, direct, c);
    if certs == [] {
      at := [];
      NoPosition(test);
    } else {
      var n: nat := |certs| - 1;
      at := KeepAt(store, claim, certs[..n], direct);
      OneMorePosition(certs, test, Keep(store, claim, certs[..n], direct), at);
      if test(certs[n]) {
        at := at + [n];
      } else {
        assert Keep(store, claim, certs, direct) == Keep(store, claim, certs[..n], direct);
      }
    }
  }

  lemma {:induction false} NoPosition<T>(test: T -> bool)
    ensures Positions([], test, [], [])
  {
  }

  lemma {:induction false} PlaceInAll(store: Store, claim: Claim, did: Did, p: nat)
    requires !Unlisted(store, claim, did)
    ensures var all := store.list(did, Some(claim.subject)).certificates + store.list(did, None).certificates;
            Place(store, claim, did, p) == if p < |all| then Some(all[p]) else None
  {
  }

  /** The candidates, read as positions: grants first, then the other links, each kind in the order of the listings. */
  lemma {:induction false} CandidatesAt(store: Store, claim: Claim, did: Did, cs: seq<Certificate>)
    returns (grants: seq<nat>, links: seq<nat>)
    requires Candidates(store, claim, did) == Some(cs)
    ensures !Unlisted(store, claim, did) && |cs| == |grants| + |links|
    ensures forall p: nat :: p in grants <==> LinkAt(store, claim, did, p, true)
    ensures forall p: nat :: p in links <==> LinkAt(store, claim, did, p, false)
    ensures forall j, k :: 0 <= j < k < |grants| ==> grants[j] < grants[k]
    ensures forall j, k :: 0 <= j < k < |links| ==> links[j] < links[k]
    ensures forall k :: 0 <= k < |grants| ==> Place(store, claim, did, grants[k]) == Some(cs[k])
    ensures forall k :: 0 <= k < |links| ==> Place(store, claim, did, links[k]) == Some(cs[|grants| + k])
  {
    hide Kept, Place, Keep;
    var all := store.list(did, Some(claim.subject)).certificates + store.list(did, None).certificates;
    grants := KeepAt(store, claim, all, true);
    links := KeepAt(store, claim, all, false);
    forall p: nat ensures Place(store, claim, did, p) == if p < |all| then Some(all[p]) else None {
      PlaceInAll(store, claim, did, p);
    }
  }

  /** Each entry waits at the end of its path, the paths go from right to left, and whatever is to be visited is barren
      or lies behind one of them. */
  ghost predicate Tracked(store: Store, claim: Claim, queue: seq<Entry>, paths: seq<seq<nat>>) {
    && |paths| == |queue|
    && (forall i :: 0 <= i < |queue| ==>
         |paths[i]| == queue[i].depth && Reached(store, claim, paths[i]) == Some(Certs(queue[i].chain)))
    && (forall i, j :: 0 <= i < j < |paths| ==> RightOf(paths[j], paths[i]))
    && (forall q :: Visits(store, claim, q) ==> Barren(store, claim, q) || Behind(paths, q))
  }

  ghost predicate Behind(paths: seq<seq<nat>>, q: seq<nat>) {
    exists i :: 0 <= i < |paths| && paths[i] <= q
  }

  lemma {:induction false} RightOfLonger(a: seq<nat>, b: seq<nat>, longer: seq<nat>)
    requires RightOf(a, b) && b <= longer
    ensures RightOf(a, longer) && !Sooner(longer, a)
  {
    var k :| 0 <= k < |a| && k < |b| && a[..k] == b[..k] && a[k] > b[k];
    assert longer[..k] == b[..k] && longer[k] == b[k];
    forall m | 0 <= m < |longer| && m < |a| && longer[..m] == a[..m] ensures longer[m] <= a[m] {
      assert m < k ==> a[m] == a[..k][m] == longer[..k][m] == longer[m];
    }
  }

  lemma {:induction false} LongerRightOf(a: seq<nat>, b: seq<nat>, p: nat)
    requires RightOf(a, b)
    ensures RightOf(a + [p], b)
  {
    var k :| 0 <= k < |a| && k < |b| && a[..k] == b[..k] && a[k] > b[k];
    assert (a + [p])[..k] == a[..k];
  }

  lemma {:induction false} NotSooner(a: seq<nat>, longer: seq<nat>)
    requires a <= longer
    ensures !Sooner(longer, a)
  {
    assert forall k :: 0 <= k < |a| ==> longer[k] == a[k];
  }

  /** What is taken from the end of the worklist is foremost. */
  lemma {:induction false} LastIsForemost(store: Store, claim: Claim, queue: seq<Entry>, paths: seq<seq<nat>>)
    requires Tracked(store, claim, queue, paths) && queue != [] && queue[|queue| - 1].depth < MAX_DEPTH
    ensures Foremost(store, claim, paths[|paths| - 1])
  {
    hide Barren, Reached, RightOf, Sooner;
    var last := paths[|paths| - 1];
    forall q | Visits(store, claim, q) && Sooner(q, last) ensures Barren(store, claim, q) {
      if !Barren(store, claim, q) {
        var i :| 0 <= i < |paths| && paths[i] <= q;
        if i < |paths| - 1 {
          RightOfLonger(last, paths[i], q);
        } else {
          NotSooner(last, q);
        }
      }
    }
  }

  lemma {:induction false} TrackedDrop(store: Store, claim: Claim, queue: seq<Entry>, paths: seq<seq<nat>>)
    requires Tracked(store, claim, queue, paths) && queue != [] && queue[|queue| - 1].depth >= MAX_DEPTH
    ensures Tracked(store, claim, queue[..|queue| - 1], paths[..|paths| - 1])
  {
    hide Barren, Reached, RightOf;
    var rest := paths[..|paths| - 1];
    forall q | Visits(store, claim, q) ensures Barren(store, claim, q) || Behind(rest, q) {
      if !Barren(store, claim, q) {
        var i :| 0 <= i < |paths| && paths[i] <= q;
        assert i < |rest| && rest[i] <= q;
      }
    }
  }

  /** The paths of the continuations by these positions. */
  function Continued(path: seq<nat>, at: seq<nat>): (r: seq<seq<nat>>)
    ensures |r| == |at| && forall k :: 0 <= k < |r| ==> r[k] == path + [at[k]]
  {
    seq(|at|, k requires 0 <= k < |at| => path + [at[k]])
  }

  lemma {:induction false} ReachedPrefix(store: Store, claim: Claim, path: seq<nat>, n: nat)
    requires Reached(store, claim, path).Some? && n <= |path|
    ensures Reached(store, claim, path[..n]).Some?
    decreases |path|
  {
    if n == |path| {
      assert path[..n] == path;
    } else {
      ReachedPrefix(store, claim, path[..|path| - 1], n);
      assert path[..|path| - 1][..n] == path[..n];
    }
  }

  lemma {:induction false} ReachedNext(store: Store, claim: Claim, path: seq<nat>, p: nat)
    requires Reached(store, claim, path).Some?
    ensures var chain := Reached(store, claim, path).value;
            var did := AudienceOf(claim, chain);
            Reached(store, claim, path + [p]) ==
            if LinkAt(store, claim, did, p, false) then Some([Place(store, claim, did, p).value] + chain) else None
  {
    hide LinkAt;
    assert (path + [p])[..|path|] == path;
  }

  /** Whatever lies behind a barren place is that place or lies behind one of its continuations. */
  lemma {:induction false} BehindContinued(store: Store, claim: Claim, path: seq<nat>, links: seq<nat>, q: seq<nat>)
    requires Visits(store, claim, path) && Visits(store, claim, q) && path <= q && q != path
    requires forall p: nat :: p in links <==> LinkAt(store, claim, DidAt(store, claim, path), p, false)
    ensures Behind(Continued(path, links), q)
  {
    hide LinkAt, Place;
    var n := |path|;
    var p := q[n];
    ReachedPrefix(store, claim, q, n + 1);
    assert q[..n + 1] == path + [p];
    ReachedNext(store, claim, path, p);
    assert LinkAt(store, claim, DidAt(store, claim, path), p, false) && p in links;
    var k :| 0 <= k < |links| && links[k] == p;
    assert Continued(path, links)[k] <= q;
  }

  lemma {:induction false} TrackedChild(store: Store, claim: Claim, e: Entry, path: seq<nat>, p: nat, c: Certificate)
    requires Sound(store, claim, e) && |path| == e.depth && Reached(store, claim, path) == Some(Certs(e.chain))
    requires LinkAt(store, claim, e.audience, p, false) && Place(store, claim, e.audience, p) == Some(c)
    ensures |path + [p]| == Child(store, e, c).depth
    ensures Reached(store, claim, path + [p]) == Some(Certs(Child(store, e, c).chain))
  {
    hide LinkAt, Place, Links, Effective, Meet, Ranges;
    ReachedNext(store, claim, path, p);
    ExtendCerts(store, e, c);
  }

  lemma {:induction false} ContinuedRight(paths: seq<seq<nat>>, path: seq<nat>, links: seq<nat>)
    requires forall i, j :: 0 <= i < j < |paths| ==> RightOf(paths[j], paths[i])
    requires forall i :: 0 <= i < |paths| ==> RightOf(path, paths[i])
    requires forall j, k :: 0 <= j < k < |links| ==> links[j] < links[k]
    ensures var all := paths + Continued(path, links); forall i, j :: 0 <= i < j < |all| ==> RightOf(all[j], all[i])
  {
    var all := paths + Continued(path, links);
    forall i, j | 0 <= i < j < |all| ensures RightOf(all[j], all[i]) {
      hide RightOf;
      if j >= |paths| {
        var p := links[j - |paths|];
        if i < |paths| {
          LongerRightOf(path, paths[i], p);
        } else {
          Siblings(path, links[i - |paths|], p);
        }
      }
    }
  }

  lemma {:induction false} Siblings(path: seq<nat>, p: nat, q: nat)
    requires p < q
    ensures RightOf(path + [q], path + [p])
  {
    var k := |path|;
    assert (path + [q])[..k] == (path + [p])[..k] == path;
    assert (path + [q])[k] > (path + [p])[k];
  }

  /** Trading a barren entry for its continuations keeps the worklist in order. */
  lemma {:induction false} TrackedRound(store: Store, claim: Claim, rest: seq<Entry>, e: Entry, paths: seq<seq<nat>>,
          path: seq<nat>, cs: seq<Certificate>) returns (next: seq<seq<nat>>)
    requires Tracked(store, claim, rest + [e], paths + [path]) && |paths| == |rest|
    requires Sound(store, claim, e) && e.depth < MAX_DEPTH && Candidates(store, claim, e.audience) == Some(cs)
    requires forall c :: c in cs ==> c.issuer != claim.subject
    ensures Tracked(store, claim, rest + Children(store, e, cs), next)
  {
    var grants, links := CandidatesAt(store, claim, e.audience, cs);
    assert grants == [] by {
      if grants != [] {
        GrantIsIssued(store, claim, e.audience, grants, cs);
      }
    }
    LastPath(store, claim, rest, e, paths, path);
    next := paths + Continued(path, links);
    ContinuedRight(paths, path, links);
    assert Barren(store, claim, path);
    TrackedBehind(store, claim, rest, e, paths, path, links);
    TrackedEntries(store, claim, rest, e, paths, path, cs, links);
  }

  lemma {:induction false} GrantIsIssued(store: Store, claim: Claim, did: Did, grants: seq<nat>, cs: seq<Certificate>)
    requires grants != [] && cs != [] && Place(store, claim, did, grants[0]) == Some(cs[0])
    requires forall p: nat :: p in grants <==> LinkAt(store, claim, did, p, true)
    ensures cs[0] in cs && cs[0].issuer == claim.subject
  {
    assert grants[0] in grants;
  }

  lemma {:induction false} LastPath(store: Store, claim: Claim, rest: seq<Entry>, e: Entry, paths: seq<seq<nat>>,
          path: seq<nat>)
    requires Tracked(store, claim, rest + [e], paths + [path]) && |paths| == |rest|
    requires Sound(store, claim, e) && e.depth < MAX_DEPTH
    ensures |path| == e.depth && Reached(store, claim, path) == Some(Certs(e.chain))
    ensures Visits(store, claim, path) && DidAt(store, claim, path) == e.audience
    ensures forall i, j :: 0 <= i < j < |paths| ==> RightOf(paths[j], paths[i])
    ensures forall i :: 0 <= i < |paths| ==> RightOf(path, paths[i])
    ensures forall i :: 0 <= i < |rest| ==>
            |paths[i]| == rest[i].depth && Reached(store, claim, paths[i]) == Some(Certs(rest[i].chain))
  {
    hide Barren, Reached, RightOf, Links, Effective, Meet, Ranges;
    var all, queue := paths + [path], rest + [e];
    assert all[|paths|] == path && queue[|rest|] == e;
    assert forall i :: 0 <= i < |paths| ==> all[i] == paths[i] && queue[i] == rest[i];
  }

  lemma {:induction false} TrackedBehind(store: Store, claim: Claim, rest: seq<Entry>, e: Entry, paths: seq<seq<nat>>,
          path: seq<nat>, links: seq<nat>)
    requires Tracked(store, claim, rest + [e], paths + [path]) && |paths| == |rest|
    requires Visits(store, claim, path) && Barren(store, claim, path)
    requires forall p: nat :: p in links <==> LinkAt(store, claim, DidAt(store, claim, path), p, false)
    ensures forall q :: Visits(store, claim, q) ==>
            Barren(store, claim, q) || Behind(paths + Continued(path, links), q)
  {
    hide Barren, Reached, RightOf, LinkAt, DidAt, Visits;
    var all, next := paths + [path], paths + Continued(path, links);
    forall q | Visits(store, claim, q) ensures Barren(store, claim, q) || Behind(next, q) {
      if !Barren(store, claim, q) {
        var i :| 0 <= i < |all| && all[i] <= q;
        if i < |paths| {
          assert next[i] <= q;
        } else {
          BehindContinued(store, claim, path, links, q);
          var k :| 0 <= k < |Continued(path, links)| && Continued(path, links)[k] <= q;
          assert next[|paths| + k] <= q;
        }
      }
    }
  }

  lemma {:induction false} TrackedEntries(store: Store, claim: Claim, rest: seq<Entry>, e: Entry,
          paths: seq<seq<nat>>, path: seq<nat>, cs: seq<Certificate>, links: seq<nat>)
    requires Sound(store, claim, e) && |path| == e.depth && Reached(store, claim, path) == Some(Certs(e.chain))
    requires |paths| == |rest| && |links| == |cs|
    requires forall i :: 0 <= i < |rest| ==>
             |paths[i]| == rest[i].depth && Reached(store, claim, paths[i]) == Some(Certs(rest[i].chain))
    requires forall p: nat :: p in links <==> LinkAt(store, claim, e.audience, p, false)
    requires forall k :: 0 <= k < |links| ==> Place(store, claim, e.audience, links[k]) == Some(cs[k])
    ensures var all, queue := paths + Continued(path, links), rest + Children(store, e, cs);
            && |all| == |queue|
            && forall i :: 0 <= i < |queue| ==>
                 |all[i]| == queue[i].depth && Reached(store, claim, all[i]) == Some(Certs(queue[i].chain))
  {
    hide Reached, LinkAt, Place, Sound, Child, Certs;
    var all, queue := paths + Continued(path, links), rest + Children(store, e, cs);
    forall i | 0 <= i < |queue|
      ensures |all[i]| == queue[i].depth && Reached(store, claim, all[i]) == Some(Certs(queue[i].chain))
    {
      if i >= |rest| {
        var k := i - |rest|;
        assert links[k] in links;
        TrackedChild(store, claim, e, path, links[k], cs[k]);
      }
    }
  }

  lemma {:induction false} TrackingStarts(store: Store, claim: Claim)
    ensures Tracked(store, claim, [Entry(claim.principal, [], UNBOUNDED, 0)], [[]])
  {
    hide Barren;
    var e := Entry(claim.principal, [], UNBOUNDED, 0);
    assert Certs(e.chain) == [];
    forall q: seq<nat> ensures Behind([[]], q) {
      assert [[]][0] <= q;
    }
  }

  lemma {:induction false} TrackedLast(store: Store, claim: Claim, queue: seq<Entry>, paths: seq<seq<nat>>)
    requires Tracked(store, claim, queue, paths) && queue != []
    ensures |paths| == |queue| && paths == paths[..|paths| - 1] + [paths[|paths| - 1]]
    ensures |paths[|paths| - 1]| == queue[|queue| - 1].depth
    ensures Reached(store, claim, paths[|paths| - 1]) == Some(Certs(queue[|queue| - 1].chain))
  {
    hide Barren, Reached, RightOf;
  }

  lemma {:induction false} TrackedNothing(store: Store, claim: Claim, q: seq<nat>)
    requires Tracked(store, claim, [], []) && Visits(store, claim, q)
    ensures Barren(store, claim, q)
  {
    hide Barren, Visits;
    assert !Behind([], q);
  }

  lemma {:induction false} CandidatesUnlisted(store: Store, claim: Claim, did: Did)
    ensures Candidates(store, claim, did).None? <==> Unlisted(store, claim, did)
  {
  }

  /** The first grant among the candidates is the grant listed first. */
  lemma {:induction false} FirstGrantIsAt(store: Store, claim: Claim, did: Did, cs: seq<Certificate>, n: nat)
    returns (p: nat)
    requires Candidates(store, claim, did) == Some(cs) && FirstGrant(claim, cs, n)
    ensures GrantAt(store, claim, did, p) && Place(store, claim, did, p) == Some(cs[n])
  {
    hide Candidates, Place;
    var grants, links := CandidatesAt(store, claim, did, cs);
    forall i | |grants| <= i < |cs| ensures cs[i].issuer != claim.subject {
      var link := links[i - |grants|];
      assert link in links && LinkAt(store, claim, did, link, false);
    }
    assert n < |grants| && grants[0] in grants && LinkAt(store, claim, did, grants[0], true);
    assert cs[0].issuer == claim.subject && n == 0;
    p := grants[0];
    forall k: nat | k < p ensures !LinkAt(store, claim, did, k, true) {
      assert k !in grants;
    }
  }

  /** The principal can be listed for, and holds a usable certificate issued by the subject. */
  predicate DirectlyGranted(store: Store, claim: Claim) {
    var candidates := Candidates(store, claim, claim.principal);
    candidates.Some? && exists c :: c in candidates.value && c.issuer == claim.subject
  }

  /** One round: the entry at the end is dropped, fails to be listed, is proved, or is traded for its continuations. */
  method Round(store: Store, claim: Claim, queue: seq<Entry>, ghost paths: seq<seq<nat>>)
    returns (next: seq<Entry>, ghost after: seq<seq<nat>>, r: Option<Outcome>)
    requires store.Indexed() && !SelfEvident(claim) && queue != []
    requires Searching(store, claim, queue) && Tracked(store, claim, queue, paths)
    ensures r.None? ==> Searching(store, claim, next) && Tracked(store, claim, next, after)
    ensures r.None? ==> OneFewerAt(queue[|queue| - 1].depth, queue, next) && queue[|queue| - 1].depth <= MAX_DEPTH
    ensures r.Some? ==> !r.value.Denied? && Resolves(store, claim, r.value)
    ensures r.Some? && r.value.Proved? ==>
            r.value.proofs != [] && IsProof(store, claim, r.value.proofs, r.value.duration)
    ensures r.Some? && r.value.Broken? ==> exists did, subject :: store.list(did, subject).Failed?
    ensures DirectlyGranted(store, claim) && queue == [Entry(claim.principal, [], UNBOUNDED, 0)] ==>
            r.Some? && r.value.Proved? && |r.value.proofs| == 1
  {
    hide Sound, Complete, Following, IsProof, Candidates, Effective, Certs, Count, Tracked, Children;
    hide Resolves, Extend, Foremost, Reached, OneFewerAt;
    var rest, e := queue[..|queue| - 1], queue[|queue| - 1];
    TakeLast(queue);
    TrackedLast(store, claim, queue, paths);
    ghost var before, path := paths[..|paths| - 1], paths[|paths| - 1];
    next, after, r := rest, before, None;
    if e.depth >= MAX_DEPTH {
      RoundDrops(store, claim, rest, e);
      TrackedDrop(store, claim, queue, paths);
      return;
    }
    LastIsForemost(store, claim, queue, paths);
    var candidates := Candidates(store, claim, e.audience);
    if candidates.None? {
      CandidatesUnlisted(store, claim, e.audience);
      BrokenThere(store, claim, e, path);
      r := Some(Broken);
      return;
    }
    var found;
    next, found := Follow(store, claim, e, rest, candidates.value);
    if found.Some? {
      ghost var n: nat :| FirstGrant(claim, candidates.value, n) &&
                          found.value == Extend(store, e, candidates.value[n]);
      ProvedThere(store, claim, e, path, candidates.value, n);
      r := Some(Proved(Certs(found.value), Effective(found.value)));
    } else {
      RoundAdvances(store, claim, rest, e, next, candidates.value);
      after := TrackedRound(store, claim, rest, e, before, path, candidates.value);
    }
  }

  /** Resolves a claim. A worklist taken from its end, cut at MAX_DEPTH, with no
      memory of the audiences visited. */
  method Prove(store: Store, claim: Claim) returns (r: Outcome)
    requires store.Indexed()
    ensures Resolves(store, claim, r)
    ensures r.Proved? && r.proofs == [] <==> claim.principal == claim.subject || claim.subject == "did:_:_"
    ensures r.Proved? && r.proofs != [] ==> IsProof(store, claim, r.proofs, r.duration) && |r.proofs| <= 10
    ensures r.Denied? ==> !exists chain :: Chain(store, claim, chain) && |chain| <= 10
    ensures r.Broken? ==> exists did, subject :: store.list(did, subject).Failed?
    ensures DirectlyGranted(store, claim) ==> r.Proved? && |r.proofs| <= 1
  {
    if claim.principal == claim.subject || claim.subject == ANY_SUBJECT {
      return Proved([], UNBOUNDED);
    }
    assert !SelfEvident(claim);
    hide Searching, IsProof, Count, Tracked, Resolves, Chain, DirectlyGranted, SelfEvident;
    SearchStarts(store, claim);
    TrackingStarts(store, claim);
    var queue := [Entry(claim.principal, [], UNBOUNDED, 0)];
    ghost var paths: seq<seq<nat>> := [[]];
    while queue != []
      invariant Searching(store, claim, queue) && Tracked(store, claim, queue, paths)
      invariant DirectlyGranted(store, claim) ==> queue == [Entry(claim.principal, [], UNBOUNDED, 0)]
      decreases Count(queue, 0), Count(queue, 1), Count(queue, 2), Count(queue, 3), Count(queue, 4), Count(queue, 5),
                Count(queue, 6), Count(queue, 7), Count(queue, 8), Count(queue, 9), Count(queue, MAX_DEPTH)
    {
      var done;
      queue, paths, done := Round(store, claim, queue, paths);
      if done.Some? {
        return done.value;
      }
    }
    forall chain ensures !(Chain(store, claim, chain) && |chain| <= MAX_DEPTH) {
      SearchExhausted(store, claim, chain);
    }
    DeniedThere(store, claim, paths);
    return Denied;
  }

  lemma {:induction false} BrokenThere(store: Store, claim: Claim, e: Entry, path: seq<nat>)
    requires !SelfEvident(claim) && Sound(store, claim, e) && Foremost(store, claim, path)
    requires Reached(store, claim, path) == Some(Certs(e.chain)) && Candidates(store, claim, e.audience).None?
    ensures Resolves(store, claim, Broken)
  {
    hide Foremost, Candidates, Reached, Links, Effective, Meet, Ranges;
    ForemostVisits(store, claim, path);
    CandidatesUnlisted(store, claim, e.audience);
    assert FailsAt(store, claim, path);
  }

  lemma {:induction false} ProvedThere(store: Store, claim: Claim, e: Entry, path: seq<nat>, cs: seq<Certificate>,
          n: nat)
    requires !SelfEvident(claim) && Sound(store, claim, e) && Foremost(store, claim, path)
    requires Reached(store, claim, path) == Some(Certs(e.chain)) && Candidates(store, claim, e.audience) == Some(cs)
    requires FirstGrant(claim, cs, n)
    ensures var chain := Extend(store, e, cs[n]); Resolves(store, claim, Proved(Certs(chain), Effective(chain)))
  {
    hide Foremost, Candidates, Reached, Links, Effective, Meet, Ranges, GrantAt, Place, Extend;
    ForemostVisits(store, claim, path);
    var p := FirstGrantIsAt(store, claim, e.audience, cs, n);
    ExtendCerts(store, e, cs[n]);
    ExtendRange(store, e, cs[n]);
    assert ProofAt(store, claim, path, p, Certs(Extend(store, e, cs[n])));
  }

  lemma {:induction false} DeniedThere(store: Store, claim: Claim, paths: seq<seq<nat>>)
    requires !SelfEvident(claim) && Tracked(store, claim, [], paths)
    ensures Resolves(store, claim, Denied)
  {
    hide Tracked, Barren, Visits;
    assert paths == [] by {
      TrackedLength(store, claim, [], paths);
    }
    forall q | Visits(store, claim, q) ensures Barren(store, claim, q) {
      TrackedNothing(store, claim, q);
    }
  }

  lemma {:induction false} TrackedLength(store: Store, claim: Claim, queue: seq<Entry>, paths: seq<seq<nat>>)
    requires Tracked(store, claim, queue, paths)
    ensures |paths| == |queue|
  {
    hide Barren, Reached, RightOf;
  }

  // ---- The order is not the documented one

  const SPECIFIC := Certificate(1, "m", "p", Some("s"))
  const POWERLINE := Certificate(2, "n", "p", None)
  const TO_SPECIFIC := Certificate(3, "s", "m", Some("s"))
  const TO_POWERLINE := Certificate(4, "s", "n", Some("s"))

  function SampleListing(did: Did, subject: Option<Did>): Listing {
    if did == "p" && subject == Some("s") then Listed([SPECIFIC])
    else if did == "p" && subject == None then Listed([POWERLINE])
    else if did == "m" && subject == Some("s") then Listed([TO_SPECIFIC])
    else if did == "n" && subject == Some("s") then Listed([TO_POWERLINE])
    else Listed([])
  }

  const SAMPLE := Store((did, subject) => SampleListing(did, subject), _ => Some(UNBOUNDED))
  const SAMPLE_CLAIM := Claim("p", "s", UNBOUNDED)

  /** Two chains of the same length, one by a subject-specific certificate and one by a powerline one: the powerline
      one, listed last, is followed first and its proof returned. */
  lemma {:induction false} PowerlineGoesFirst()
    ensures Chain(SAMPLE, SAMPLE_CLAIM, [TO_SPECIFIC, SPECIFIC]) &&
            Chain(SAMPLE, SAMPLE_CLAIM, [TO_POWERLINE, POWERLINE])
    ensures Resolves(SAMPLE, SAMPLE_CLAIM, Proved([TO_POWERLINE, POWERLINE], UNBOUNDED))
  {
    SampleForemost();
    assert Reached(SAMPLE, SAMPLE_CLAIM, [1]) == Some([POWERLINE]);
    assert LinkAt(SAMPLE, SAMPLE_CLAIM, "n", 0, true);
    assert [TO_POWERLINE] + [POWERLINE] == [TO_POWERLINE, POWERLINE];
    assert ProofAt(SAMPLE, SAMPLE_CLAIM, [1], 0, [TO_POWERLINE, POWERLINE]);
    RangesCons(SAMPLE, TO_POWERLINE, [POWERLINE]);
    RangeOfOne(SAMPLE, POWERLINE);
  }

  lemma {:induction false} SampleForemost()
    ensures Reached(SAMPLE, SAMPLE_CLAIM, [1]) == Some([POWERLINE]) && Foremost(SAMPLE, SAMPLE_CLAIM, [1])
  {
    ReachedNext(SAMPLE, SAMPLE_CLAIM, [], 1);
    assert [] + [1] == [1] && [POWERLINE] + [] == [POWERLINE];
    forall q | Visits(SAMPLE, SAMPLE_CLAIM, q) && Sooner(q, [1]) ensures Barren(SAMPLE, SAMPLE_CLAIM, q) {
      if q != [] {
        assert q[0] > 1;
        ReachedPrefix(SAMPLE, SAMPLE_CLAIM, q, 1);
        ReachedNext(SAMPLE, SAMPLE_CLAIM, [], q[0]);
      }
    }
  }

  /** A proof is valid at an instant exactly when each of its certificates is. */
  lemma {:induction false} ProofValidity(store: Store, claim: Claim, proofs: seq<Certificate>, duration: TimeRange,
          time: u64)
    requires IsProof(store, claim, proofs, duration)
    ensures duration.Contains(time) <==> forall c :: c in proofs ==> store.verify(c).value.Contains(time)
  {
    MeetContains(Ranges(store, proofs), time);
    assert forall i :: 0 <= i < |proofs| ==> Ranges(store, proofs)[i] == store.verify(proofs[i]).value;
  }
}
