/** Facts about whole handlers from facts about their parts: every handler is made of vote handling,
    commit checks and single writes in between. */
module Passes {
  import opened Validators
  import opened BlockTree
  import opened Handlers
  import opened NodeInvariant
  import opened Protocol

  /** Writes that change neither finality nor the highest committed block. */
  predicate Quiet(x: Write) {
    !x.PutLfb? && !x.PutHcc? && (x.PutStatus? ==> x.status.Valid? || x.status.Invalid?)
  }

  predicate Plain(x: Write) {
    Quiet(x) && !x.PutEpochVote? && !x.PutVote? && !x.PutEpoch?
  }

  /** All writes of the list obey the rule, and the fact still holds after them. */
  ghost predicate ListPasses(st: Node -> bool, rule: (Node, Write) -> bool, n: Node, ws: seq<Write>) {
    Each(rule, n, ws) && st(ApplyAll(n, ws))
  }

  /** Writes of the kind obey the rule and keep the fact, wherever invariant and fact hold. */
  ghost predicate WritesPass(inv: Node -> bool, st: Node -> bool, rule: (Node, Write) -> bool, kind: Write -> bool) {
    forall n, x {:trigger rule(n, x)} :: inv(n) && st(n) && kind(x) && Guard(n, x) ==> rule(n, x) && st(Apply(n, x))
  }

  ghost predicate VotesPass(inv: Node -> bool, st: Node -> bool, rule: (Node, Write) -> bool, vs: ValidatorSet) {
    forall n, v, tie {:trigger HandleVote(n, vs, v, tie)} ::
      st(n) && Safe(inv, n, HandleVote(n, vs, v, tie)) ==> ListPasses(st, rule, n, HandleVote(n, vs, v, tie))
  }

  ghost predicate ChecksPass(inv: Node -> bool, st: Node -> bool, rule: (Node, Write) -> bool, vs: ValidatorSet) {
    forall n, h {:trigger CheckCC(n, vs, h)} :: inv(n) && st(n) ==> ListPasses(st, rule, n, CheckCC(n, vs, h))
  }

  ghost predicate AllPass(inv: Node -> bool, st: Node -> bool, rule: (Node, Write) -> bool, vs: ValidatorSet) {
    WritesPass(inv, st, rule, Plain) && VotesPass(inv, st, rule, vs) && ChecksPass(inv, st, rule, vs)
  }

  lemma {:induction false} ListOfPasses(inv: Node -> bool, st: Node -> bool, rule: (Node, Write) -> bool, kind: Write -> bool, n: Node, ws: seq<Write>)
    requires WritesPass(inv, st, rule, kind) && st(n) && Safe(inv, n, ws) && forall x :: x in ws ==> kind(x)
    ensures ListPasses(st, rule, n, ws)
    decreases ws
  {
    if ws != [] {
      assert ws[0] in ws && rule(n, ws[0]);
      ListOfPasses(inv, st, rule, kind, Apply(n, ws[0]), ws[1..]);
    }
  }

  lemma TwoPass(inv: Node -> bool, st: Node -> bool, rule: (Node, Write) -> bool, n: Node, a: seq<Write>, b: seq<Write>)
    requires ListPasses(st, rule, n, a) && ListPasses(st, rule, ApplyAll(n, a), b)
    ensures ListPasses(st, rule, n, a + b)
  {
    EachConcat(rule, n, a, b);
    ApplyAllConcat(n, a, b);
  }

  /** Where every quiet write passes, so does vote handling. */
  lemma QuietVotesPass(inv: Node -> bool, st: Node -> bool, rule: (Node, Write) -> bool, vs: ValidatorSet)
    requires WritesPass(inv, st, rule, Quiet) && ChecksPass(inv, st, rule, vs)
    ensures AllPass(inv, st, rule, vs)
  {
    hide ListPasses, Guard;
    forall n, x | inv(n) && st(n) && Plain(x) && Guard(n, x) ensures rule(n, x) && st(Apply(n, x)) {
      assert Quiet(x);
    }
    forall n, v, tie | st(n) && Safe(inv, n, HandleVote(n, vs, v, tie)) ensures ListPasses(st, rule, n, HandleVote(n, vs, v, tie)) {
      ListOfPasses(inv, st, rule, Quiet, n, HandleVote(n, vs, v, tie));
    }
  }

  lemma {:induction false} VoteListPasses(inv: Node -> bool, st: Node -> bool, rule: (Node, Write) -> bool, vs: ValidatorSet, n: Node, votes: seq<Incoming>)
    requires VotesPass(inv, st, rule, vs) && st(n) && Safe(inv, n, HandleVotes(n, vs, votes))
    ensures ListPasses(st, rule, n, HandleVotes(n, vs, votes))
    decreases votes
  {
    hide HandleVote;
    if votes != [] {
      var ws := HandleVote(n, vs, votes[0].vote, votes[0].replaceTie);
      var rest := HandleVotes(ApplyAll(n, ws), vs, votes[1..]);
      SafeSplit(inv, n, ws, rest);
      VoteListPasses(inv, st, rule, vs, ApplyAll(n, ws), votes[1..]);
      TwoPass(inv, st, rule, n, ws, rest);
    }
  }

  lemma PreparePasses(inv: Node -> bool, st: Node -> bool, rule: (Node, Write) -> bool, vs: ValidatorSet, n: Node, b: Block, order: seq<Incoming>)
    requires AllPass(inv, st, rule, vs) && st(n) && Safe(inv, n, Prepare(n, vs, b, order))
    ensures ListPasses(st, rule, n, Prepare(n, vs, b, order))
  {
    hide HandleVotes, CheckCC;
    var ws := HandleVotes(n, vs, order);
    var rest := CatchUp(ApplyAll(n, ws), vs, b.hcc);
    SafeSplit(inv, n, ws, rest);
    VoteListPasses(inv, st, rule, vs, n, order);
    TwoPass(inv, st, rule, n, ws, rest);
  }

  lemma MarkAndVotePlain(n: Node, vs: ValidatorSet, b: Block, env: Env)
    ensures forall x :: x in MarkAndVote(n, vs, b, env) ==> Plain(x)
  {
  }

  lemma ConcludePasses(inv: Node -> bool, st: Node -> bool, rule: (Node, Write) -> bool, vs: ValidatorSet, n: Node, b: Block, env: Env)
    requires AllPass(inv, st, rule, vs) && st(n) && Safe(inv, n, Conclude(n, vs, b, env))
    ensures ListPasses(st, rule, n, Conclude(n, vs, b, env))
  {
    hide MarkAndVote, CheckCC;
    var ws := MarkAndVote(n, vs, b, env);
    MarkAndVotePlain(n, vs, b, env);
    if EndsAtSearch(ApplyAll(n, MarkValid(b.hash, env.validatorUpdate)), b, env) {
      ListOfPasses(inv, st, rule, Plain, n, ws);
    } else {
      var rest := CheckCC(ApplyAll(n, ws), vs, b.hash);
      SafeSplit(inv, n, ws, rest);
      ListOfPasses(inv, st, rule, Plain, n, ws);
      TwoPass(inv, st, rule, n, ws, rest);
    }
  }

  lemma AcceptPasses(inv: Node -> bool, st: Node -> bool, rule: (Node, Write) -> bool, vs: ValidatorSet, n: Node, b: Block, env: Env)
    requires AllPass(inv, st, rule, vs) && st(n) && Safe(inv, n, AcceptBlock(n, vs, b, env))
    ensures ListPasses(st, rule, n, AcceptBlock(n, vs, b, env))
  {
    hide Prepare, Conclude, ListPasses;
    var ws := Prepare(n, vs, b, env.order);
    var n1 := ApplyAll(n, ws);
    var rest := if env.applyOk then Conclude(n1, vs, b, env) else [PutStatus(b.hash, Invalid)];
    SafeSplit(inv, n, ws, rest);
    PreparePasses(inv, st, rule, vs, n, b, env.order);
    PassedHolds(st, rule, n, ws);
    if env.applyOk {
      ConcludePasses(inv, st, rule, vs, n1, b, env);
    } else {
      ListOfPasses(inv, st, rule, Plain, n1, rest);
    }
    TwoPass(inv, st, rule, n, ws, rest);
  }

  lemma PassedHolds(st: Node -> bool, rule: (Node, Write) -> bool, n: Node, ws: seq<Write>)
    requires ListPasses(st, rule, n, ws)
    ensures st(ApplyAll(n, ws))
  {
  }

  /** Every handler obeys the rule at every write and keeps the fact, if its parts do. */
  lemma ActionPasses(inv: Node -> bool, st: Node -> bool, rule: (Node, Write) -> bool, vs: ValidatorSet, n: Node, a: Action)
    requires AllPass(inv, st, rule, vs) && st(n) && Safe(inv, n, Writes(n, vs, a))
    ensures ListPasses(st, rule, n, Writes(n, vs, a))
  {
    match a {
      case OnVote(v, tie) =>
        hide HandleVote, CheckCC, ListPasses;
        var ws := HandleVote(n, vs, v, tie);
        var rest := CheckCC(ApplyAll(n, ws), vs, v.block);
        SafeSplit(inv, n, ws, rest);
        PassedHolds(st, rule, n, ws);
        TwoPass(inv, st, rule, n, ws, rest);
      case OnBlock(h, env) =>
        hide AcceptBlock, ListPasses, ValidateBlock;
        var ws := HandleBlock(n, vs, h, env);
        if h in n.chain.blocks && ws == AcceptBlock(n, vs, n.chain.blocks[h].block, env) {
          AcceptPasses(inv, st, rule, vs, n, n.chain.blocks[h].block, env);
        } else {
          ListOfPasses(inv, st, rule, Plain, n, ws);
        }
      case OnTimer(tip) =>
        hide ListPasses;
        ListOfPasses(inv, st, rule, Plain, n, CastVote(n, vs, tip));
    }
  }
}
