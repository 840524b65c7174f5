/** The SMTP probe of `mx_check`: try each mail exchanger in turn, ask VRFY
    about the address, and when the answer is neither absent nor 250, open a
    mail transaction from one of the fixed sender addresses and ask again. */
module Probe {

  /** The sender addresses offered, in the order they are tried. */
  const Senders: seq<string> := ["info@gmail.com", "contact@gmail.com", "contact@yahoo.com",
                                 "info@yahoo.com", "support@google.com"]

  /** One mail exchanger as the probe sees it: whether a connection and the
      greeting succeed, the VRFY reply code for an address, and the reply code
      for `smtp.mail(address)`. A code of 0 stands for an absent code. Replies
      depend on the address only, not on earlier commands. */
  datatype Server = Server(connects: bool, greets: bool, vrfy: string -> int, mail: string -> int)

  /** What one host decided about the address. */
  datatype Verdict = Accepted | Rejected | Undecided

  /** The commands the probe issues on a connection, in order. The candidate
      check issues a second `smtp.mail`, so it is logged as a MAIL like the
      sender's. */
  datatype Command = Hello | Verify(address: string) | Mail(address: string)

  /** `host[:-1] if host[-1] == '.' else host`: one trailing dot dropped. */
  function StripDot(host: string): (r: string)
    requires host != []
    ensures host[|host| - 1] == '.' ==> r + "." == host
    ensures host[|host| - 1] != '.' ==> r == host
  {
    if host[|host| - 1] == '.' then host[..|host| - 1] else host
  }

  /** `v_code and v_code != 250`: the VRFY reply that starts sender negotiation. */
  predicate Negotiates(code: int) {
    code != 0 && code != 250
  }

  /** The reply to the candidate address, once a sender was accepted. */
  function Classify(code: int): Verdict {
    if code == 250 then Accepted else if code == 550 then Rejected else Undecided
  }

  /** The sender loop from the `j`-th sender on: a sender answered 250 is
      followed by the candidate, whose 250 or 550 ends the probe. */
  function SenderRound(s: Server, email: string, senders: seq<string>, j: nat): Verdict
    requires j <= |senders|
    decreases |senders| - j
  {
    if j == |senders| then Undecided
    else if s.mail(senders[j]) == 250 && Classify(s.mail(email)) != Undecided then Classify(s.mail(email))
    else SenderRound(s, email, senders, j + 1)
  }

  /** The commands of the sender loop from the `j`-th sender on. */
  function SenderLog(s: Server, email: string, senders: seq<string>, j: nat): seq<Command>
    requires j <= |senders|
    decreases |senders| - j
  {
    if j == |senders| then []
    else if s.mail(senders[j]) != 250 then [Mail(senders[j])] + SenderLog(s, email, senders, j + 1)
    else if Classify(s.mail(email)) != Undecided then [Mail(senders[j]), Mail(email)]
    else [Mail(senders[j]), Mail(email)] + SenderLog(s, email, senders, j + 1)
  }

  /** What one host decides: nothing when it cannot be reached or greeted or
      when its VRFY reply does not call for negotiation. */
  function HostVerdict(s: Server, email: string, senders: seq<string>): Verdict {
    if s.connects && s.greets && Negotiates(s.vrfy(email)) then SenderRound(s, email, senders, 0)
    else Undecided
  }

  /** The commands issued to one host after connecting to it. */
  function HostLog(s: Server, email: string, senders: seq<string>): seq<Command> {
    if !s.connects then []
    else if !s.greets then [Hello]
    else if !Negotiates(s.vrfy(email)) then [Hello, Verify(email)]
    else [Hello, Verify(email)] + SenderLog(s, email, senders, 0)
  }

  /** Every mail exchanger name is non-empty. */
  predicate NamedHosts(hosts: seq<string>) {
    forall k :: 0 <= k < |hosts| ==> hosts[k] != []
  }

  /** The verdict of every host of the list, in list order, each reached on
      the server its name (trailing dot dropped) designates. */
  function Verdicts(net: string -> Server, email: string, senders: seq<string>, hosts: seq<string>): (r: seq<Verdict>)
    requires NamedHosts(hosts)
    ensures |r| == |hosts|
    ensures forall k :: 0 <= k < |hosts| ==> r[k] == HostVerdict(net(StripDot(hosts[k])), email, senders)
  {
    seq(|hosts|, k requires 0 <= k < |hosts| => HostVerdict(net(StripDot(hosts[k])), email, senders))
  }

  /** The answer of the host loop from the `i`-th host on, given the verdict
      of each host: the first verdict reached decides, `False` when none is. */
  function Decide(verdicts: seq<Verdict>, i: nat): bool
    requires i <= |verdicts|
    decreases |verdicts| - i
  {
    if i == |verdicts| then false
    else
      match verdicts[i]
      case Accepted => true
      case Rejected => false
      case Undecided => Decide(verdicts, i + 1)
  }

  /** How many hosts the host loop tries from the `i`-th host on, whether or not
      the connection succeeds: it
      goes on past a host only when that host stays undecided. */
  function TriedCount(verdicts: seq<Verdict>, i: nat): (n: nat)
    requires i <= |verdicts|
    ensures n <= |verdicts| - i
    decreases |verdicts| - i
  {
    if i == |verdicts| then 0
    else 1 + (if verdicts[i] == Undecided then TriedCount(verdicts, i + 1) else 0)
  }

  /** The result of `mx_check` over the whole host list. */
  function MxPasses(net: string -> Server, email: string, senders: seq<string>, hosts: seq<string>): bool
    requires NamedHosts(hosts)
  {
    Decide(Verdicts(net, email, senders, hosts), 0)
  }

  /** The sender loop of `mx_check` on one connected host: the verdict it
      reaches and the commands it issues. */
  method Negotiate(smtp: Server, email: string, senders: seq<string>) returns (verdict: Verdict, ghost log: seq<Command>)
    ensures verdict == SenderRound(smtp, email, senders, 0)
    ensures log == SenderLog(smtp, email, senders, 0)
  {
    log := [];
    for j := 0 to |senders|
      invariant SenderRound(smtp, email, senders, 0) == SenderRound(smtp, email, senders, j)
      invariant SenderLog(smtp, email, senders, 0) == log + SenderLog(smtp, email, senders, j)
    {
      var fromAddr := senders[j];
      var fromCode := smtp.mail(fromAddr);
      ghost var step := [Mail(fromAddr)];
      if fromCode != 0 && fromCode == 250 {
        var rcptCode := smtp.mail(email);
        step := [Mail(fromAddr), Mail(email)];
        if rcptCode != 0 && rcptCode == 250 {
          return Accepted, log + step;
        }
        if rcptCode != 0 && rcptCode == 550 {
          return Rejected, log + step;
        }
      }
      assert log + (step + SenderLog(smtp, email, senders, j + 1)) == (log + step) + SenderLog(smtp, email, senders, j + 1);
      log := log + step;
    }
    verdict := Undecided;
  }

  /** One pass of the host loop of `mx_check`: connect, greet, VRFY, and
      negotiate senders when the VRFY reply calls for it. */
  method TryHost(smtp: Server, email: string, senders: seq<string>) returns (verdict: Verdict, ghost log: seq<Command>)
    ensures verdict == HostVerdict(smtp, email, senders)
    ensures log == HostLog(smtp, email, senders)
  {
    log := [];
    verdict := Undecided;
    if !smtp.connects {
      return;
    }
    log := [Hello];
    if !smtp.greets {
      return;
    }
    var vCode := smtp.vrfy(email);
    log := [Hello, Verify(email)];
    if vCode != 0 && vCode != 250 {
      ghost var senderLog;
      verdict, senderLog := Negotiate(smtp, email, senders);
      log := log + senderLog;
    }
  }

  /** The host loop's step: the `i`-th verdict, when reached, is the answer
      and ends the loop; otherwise the loop goes on to the next host. */
  lemma DecideStep(verdicts: seq<Verdict>, i: nat)
    requires i < |verdicts|
    ensures Decide(verdicts, i) == if verdicts[i] == Undecided then Decide(verdicts, i + 1) else verdicts[i] == Accepted
    ensures TriedCount(verdicts, i) == 1 + if verdicts[i] == Undecided then TriedCount(verdicts, i + 1) else 0
  {
  }

  /** `mx_check`, with the mail exchangers of the address's domain given as
      `hosts` and the servers they name given as `net`. Besides the answer,
      `tried` counts the hosts tried, connected or not, which are the first
      ones of the list, in order. */
  method MxCheck(email: string, hosts: seq<string>, net: string -> Server) returns (ok: bool, ghost tried: nat)
    requires NamedHosts(hosts)
    ensures ok == MxPasses(net, email, Senders, hosts)
    ensures tried == TriedCount(Verdicts(net, email, Senders, hosts), 0)
  {
    var senders := Senders;
    ghost var verdicts := Verdicts(net, email, senders, hosts);
    tried := 0;
    for i := 0 to |hosts|
      invariant Decide(verdicts, 0) == Decide(verdicts, i)
      invariant TriedCount(verdicts, 0) == i + TriedCount(verdicts, i)
      invariant tried == i
    {
      var host := hosts[i];
      host := if host[|host| - 1] == '.' then host[..|host| - 1] else host;
      var verdict, _ := TryHost(net(host), email, senders);
      DecideStep(verdicts, i);
      tried := tried + 1;
      if verdict != Undecided {
        ok := verdict == Accepted;
        return;
      }
    }
    ok := false;
  }

  /** The host loop answers `True` exactly when some host accepts and every
      host before it stayed undecided. */
  lemma {:induction false} DecideIsFirstVerdict(verdicts: seq<Verdict>, i: nat)
    requires i <= |verdicts|
    ensures Decide(verdicts, i) <==>
              exists k :: i <= k < |verdicts| && verdicts[k] == Accepted
                          && forall j :: i <= j < k ==> verdicts[j] == Undecided
    decreases |verdicts| - i
  {
    if i < |verdicts| {
      DecideIsFirstVerdict(verdicts, i + 1);
      if verdicts[i] == Rejected {
        forall k | i <= k < |verdicts| && verdicts[k] == Accepted
          ensures exists j :: i <= j < k && verdicts[j] != Undecided
        {
          assert k != i;
        }
      }
    }
  }

  /** `mx_check` answers `True` exactly when the first host to reach a
      verdict accepts the address. */
  lemma MxPassesIsFirstVerdict(net: string -> Server, email: string, senders: seq<string>, hosts: seq<string>)
    requires NamedHosts(hosts)
    ensures var verdicts := Verdicts(net, email, senders, hosts);
            MxPasses(net, email, senders, hosts) <==>
              exists k :: 0 <= k < |hosts| && verdicts[k] == Accepted
                          && forall j :: 0 <= j < k ==> verdicts[j] == Undecided
  {
    DecideIsFirstVerdict(Verdicts(net, email, senders, hosts), 0);
  }

  /** When no host reaches a verdict the answer is `False`. */
  lemma {:induction false} AllUndecidedIsFalse(verdicts: seq<Verdict>, i: nat)
    requires i <= |verdicts|
    requires forall k :: i <= k < |verdicts| ==> verdicts[k] == Undecided
    ensures !Decide(verdicts, i)
    decreases |verdicts| - i
  {
    if i < |verdicts| {
      AllUndecidedIsFalse(verdicts, i + 1);
    }
  }

  /** The host loop tries every host up to and including the first that
      reaches a verdict, and no other: all hosts tried but the last
      stayed undecided, and it stops before the end of the list only at a
      host that reached a verdict. */
  lemma {:induction false} TriedUpToFirstVerdict(verdicts: seq<Verdict>, i: nat)
    requires i <= |verdicts|
    ensures var n := TriedCount(verdicts, i);
            && (forall k :: i <= k < i + n - 1 ==> verdicts[k] == Undecided)
            && (i + n < |verdicts| ==> n > 0 && verdicts[i + n - 1] != Undecided)
            && (i < |verdicts| ==> n > 0)
    decreases |verdicts| - i
  {
    if i < |verdicts| {
      TriedUpToFirstVerdict(verdicts, i + 1);
    }
  }

  /** Because a server's replies do not depend on earlier commands, the
      sender loop decides by the candidate's reply as soon as any sender is
      accepted, and stays undecided when none is. */
  lemma {:induction false} SenderRoundByReplies(s: Server, email: string, senders: seq<string>, j: nat)
    requires j <= |senders|
    ensures SenderRound(s, email, senders, j) ==
              if exists i :: j <= i < |senders| && s.mail(senders[i]) == 250 then Classify(s.mail(email))
              else Undecided
    decreases |senders| - j
  {
    if j < |senders| {
      SenderRoundByReplies(s, email, senders, j + 1);
    }
  }

  /** The sender loop only sends MAIL, for a sender or for the candidate. */
  lemma {:induction false} SenderLogOnlyMails(s: Server, email: string, senders: seq<string>, j: nat)
    requires j <= |senders|
    ensures forall c :: c in SenderLog(s, email, senders, j) ==> c.Mail? && (c.address in senders || c.address == email)
    decreases |senders| - j
  {
    if j < |senders| {
      SenderLogOnlyMails(s, email, senders, j + 1);
    }
  }

  /** MAIL is sent to a host only once it was connected, greeted and gave a
      VRFY reply that is neither absent nor 250, and only for one of the
      fixed senders or for the candidate. */
  lemma MailOnlyAfterNegotiation(s: Server, email: string, senders: seq<string>, c: Command)
    requires c in HostLog(s, email, senders) && c.Mail?
    ensures s.connects && s.greets && Negotiates(s.vrfy(email))
    ensures c.address in senders || c.address == email
  {
    SenderLogOnlyMails(s, email, senders, 0);
  }
}
