/**
 The error classification of internal/watch/errors.go over nested errors. An
 error is a tree: wrappers and joins unwrap, a failed re-authentication does
 not, so the classification has to look into it explicitly.
 */
module WatchErrors {
  import opened Basics

  datatype Errno = ConnReset | ConnAborted | BrokenPipe | ConnRefused | OtherErrno(timeout: bool)

  datatype Kind =
    | UnexpectedResponse(code: int)   // gophercloud's status error
    | S3Response(code: int)           // internal/s3's status error
    | NetFault(timeout: bool)         // any other net.Error
    | Sys(errno: Errno)
    | EOF | UnexpectedEOF | NetClosed
    | Canceled | DeadlineExceeded
    | Settled                         // a bad column, an unknown filter, ..

  datatype Error =
    | Leaf(kind: Kind)
    | Wrap(inner: Error, net: Option<bool>)        // net: the wrapper is itself a net.Error
    | Joined(all: seq<Error>)
    | Reauth(original: Error, reauth: Error)       // ErrUnableToReauthenticate

  function Size(e: Error): nat {
    match e
    case Leaf(_) => 1
    case Wrap(inner, _) => 1 + Size(inner)
    case Joined(all) => 1 + SizeAll(all)
    case Reauth(original, reauth) => 1 + Size(original) + Size(reauth)
  }

  function SizeAll(all: seq<Error>): nat {
    if all == [] then 0 else Size(all[0]) + SizeAll(all[1..])
  }

  /** The nodes errors.As and errors.Is visit, in order. */
  function Visit(e: Error): (nodes: seq<Error>)
    ensures nodes != [] && nodes[0] == e
    ensures forall n :: n in nodes ==> Size(n) <= Size(e)
  {
    match e
    case Wrap(inner, _) => [e] + Visit(inner)
    case Joined(all) => [e] + VisitAll(all)
    case _ => [e]
  }

  function VisitAll(all: seq<Error>): (nodes: seq<Error>)
    ensures forall n :: n in nodes ==> Size(n) <= SizeAll(all)
  {
    if all == [] then [] else Visit(all[0]) + VisitAll(all[1..])
  }

  /** reauthFailure: the re-authentication error of the first such node. */
  function FindReauth(nodes: seq<Error>): (r: Option<Error>)
    ensures r.Some? ==> exists n :: n in nodes && n.Reauth? && n.reauth == r.value
    ensures r.None? ==> forall n :: n in nodes ==> !n.Reauth?
  {
    if nodes == [] then None else if nodes[0].Reauth? then Some(nodes[0].reauth) else FindReauth(nodes[1..])
  }

  function FirstOpenStackCode(nodes: seq<Error>): Option<int> {
    if nodes == [] then None
    else if nodes[0].Leaf? && nodes[0].kind.UnexpectedResponse? then Some(nodes[0].kind.code)
    else FirstOpenStackCode(nodes[1..])
  }

  function FirstS3Code(nodes: seq<Error>): Option<int> {
    if nodes == [] then None
    else if nodes[0].Leaf? && nodes[0].kind.S3Response? then Some(nodes[0].kind.code)
    else FirstS3Code(nodes[1..])
  }

  function HttpStatus(e: Error): Option<int> {
    var code := FirstOpenStackCode(Visit(e));
    if code.Some? then code else FirstS3Code(Visit(e))
  }

  /** Timeout() of a node that is a net.Error. */
  function NetTimeout(e: Error): Option<bool> {
    match e
    case Wrap(_, net) => net
    case Leaf(NetFault(t)) => Some(t)
    case Leaf(Sys(OtherErrno(t))) => Some(t)
    case Leaf(Sys(_)) => Some(false)
    case Leaf(DeadlineExceeded) => Some(true)
    case _ => None
  }

  function FirstNetTimeout(nodes: seq<Error>): bool {
    if nodes == [] then false
    else if NetTimeout(nodes[0]).Some? then NetTimeout(nodes[0]).value
    else FirstNetTimeout(nodes[1..])
  }

  predicate Is(e: Error, kind: Kind) { Leaf(kind) in Visit(e) }

  predicate IsTransient(e: Error)
    decreases Size(e)
  {
    var unable := FindReauth(Visit(e));
    if unable.Some? then ReauthSmaller(e); IsTransient(unable.value)
    else
      var code := HttpStatus(e);
      if code.Some? then code.value >= 500 || code.value == 408 || code.value == 429
      else
        || FirstNetTimeout(Visit(e))
        || Is(e, Sys(ConnReset)) || Is(e, Sys(ConnAborted)) || Is(e, Sys(BrokenPipe)) || Is(e, Sys(ConnRefused))
        || Is(e, EOF) || Is(e, UnexpectedEOF) || Is(e, NetClosed)
  }

  predicate IsAuthFailure(e: Error) {
    var unable := FindReauth(Visit(e));
    if unable.Some? then !IsTransient(unable.value)
    else
      var code := HttpStatus(e);
      code.Some? && (code.value == 401 || code.value == 403)
  }

  predicate IsCancellation(e: Error) { Is(e, Canceled) || Is(e, DeadlineExceeded) }

  lemma ReauthSmaller(e: Error)
    ensures FindReauth(Visit(e)).Some? ==> Size(FindReauth(Visit(e)).value) < Size(e)
  {
    if FindReauth(Visit(e)).Some? {
      var n :| n in Visit(e) && n.Reauth? && n.reauth == FindReauth(Visit(e)).value;
      assert Size(n) == 1 + Size(n.original) + Size(n.reauth);
    }
  }

  /** No error is both a rejected credential and worth another try; once a
      re-authentication failed it is exactly one of the two. */
  lemma AuthExcludesTransient(e: Error)
    ensures !(IsAuthFailure(e) && IsTransient(e))
    ensures FindReauth(Visit(e)).Some? ==> (IsAuthFailure(e) <==> !IsTransient(e))
  {
    ReauthSmaller(e);
  }

  /** The failure that decides, under any number of nested re-authentications. */
  function RootCause(e: Error): Error
    decreases Size(e)
  {
    var unable := FindReauth(Visit(e));
    if unable.Some? then ReauthSmaller(e); RootCause(unable.value) else e
  }

  /** Nested re-authentication failures are as transient as the innermost one;
      a credential counts as rejected exactly when the innermost failure is a
      401/403, or is not transient inside at least one re-authentication. */
  lemma {:induction false} RootCauseDecides(e: Error)
    ensures FindReauth(Visit(RootCause(e))).None?
    ensures IsTransient(e) <==> IsTransient(RootCause(e))
    ensures IsAuthFailure(e) <==>
      (if FindReauth(Visit(e)).Some? then !IsTransient(RootCause(e)) else HttpStatus(e) == Some(401) || HttpStatus(e) == Some(403))
    decreases Size(e)
  {
    ReauthSmaller(e);
    var unable := FindReauth(Visit(e));
    if unable.Some? {
      RootCauseDecides(unable.value);
      assert RootCause(e) == RootCause(unable.value);
    }
  }

  // ------------------------------------------------------- what decides, node by node

  /** n is the error, or under its wrappers and joins. */
  ghost predicate Under(e: Error, n: Error) {
    n == e || match e
      case Wrap(inner, _) => Under(inner, n)
      case Joined(all) => exists i :: 0 <= i < |all| && Under(all[i], n)
      case _ => false
  }

  lemma {:induction false} VisitExactly(e: Error, n: Error)
    ensures n in Visit(e) <==> Under(e, n)
    decreases e, 0
  {
    match e
    case Wrap(inner, _) => VisitExactly(inner, n);
    case Joined(all) => VisitAllExactly(all, n);
    case _ =>
  }

  lemma {:induction false} VisitAllExactly(all: seq<Error>, n: Error)
    ensures n in VisitAll(all) <==> exists i :: 0 <= i < |all| && Under(all[i], n)
    decreases all, |all|
  {
    if all != [] {
      VisitExactly(all[0], n);
      VisitAllExactly(all[1..], n);
      if i :| 0 <= i < |all| && Under(all[i], n) && i > 0 { assert all[1..][i - 1] == all[i]; }
      if i :| 0 <= i < |all[1..]| && Under(all[1..][i], n) { assert all[i + 1] == all[1..][i]; }
    }
  }

  /** The nodes are visited from the outside in, and a join's from the first on. */
  lemma VisitInOrder(e: Error)
    ensures Visit(e)[0] == e
    ensures e.Wrap? ==> Visit(e)[1..] == Visit(e.inner)
    ensures e.Joined? && e.all != [] ==> Visit(e)[1..] == Visit(e.all[0]) + VisitAll(e.all[1..])
  {}

  /** The first of the nodes that carries a status of OpenStack carries this one. */
  ghost predicate FirstOpenStack(nodes: seq<Error>, code: int) {
    exists i :: 0 <= i < |nodes| && nodes[i] == Leaf(UnexpectedResponse(code))
                && forall j :: 0 <= j < i ==> !(nodes[j].Leaf? && nodes[j].kind.UnexpectedResponse?)
  }

  ghost predicate FirstS3(nodes: seq<Error>, code: int) {
    exists i :: 0 <= i < |nodes| && nodes[i] == Leaf(S3Response(code))
                && forall j :: 0 <= j < i ==> !(nodes[j].Leaf? && nodes[j].kind.S3Response?)
  }

  ghost predicate StatusIs(nodes: seq<Error>, code: int) {
    FirstOpenStack(nodes, code) || ((forall c :: !FirstOpenStack(nodes, c)) && FirstS3(nodes, code))
  }

  /** A node that is a net.Error, and whether it says it is a timeout. */
  ghost predicate IsNet(n: Error, timeout: bool) {
    match n
    case Wrap(_, net) => net == Some(timeout)
    case Leaf(kind) => kind == NetFault(timeout) || kind == Sys(OtherErrno(timeout))
                       || (kind in {Sys(ConnReset), Sys(ConnAborted), Sys(BrokenPipe), Sys(ConnRefused)} && !timeout)
                       || (kind == DeadlineExceeded && timeout)
    case _ => false
  }

  /** The first net.Error among the nodes is a timeout. */
  ghost predicate TimesOut(nodes: seq<Error>) {
    exists i :: 0 <= i < |nodes| && IsNet(nodes[i], true) && forall j :: 0 <= j < i ==> !IsNet(nodes[j], false) && !IsNet(nodes[j], true)
  }

  ghost predicate Broken(e: Error, kind: Kind) {
    Under(e, Leaf(kind)) &&
    kind in {Sys(ConnReset), Sys(ConnAborted), Sys(BrokenPipe), Sys(ConnRefused), EOF, UnexpectedEOF, NetClosed}
  }

  lemma {:induction false} OpenStackExactly(nodes: seq<Error>, code: int)
    ensures FirstOpenStackCode(nodes) == Some(code) <==> FirstOpenStack(nodes, code)
  {
    if nodes != [] && !(nodes[0].Leaf? && nodes[0].kind.UnexpectedResponse?) {
      OpenStackExactly(nodes[1..], code);
      if i :| 0 <= i < |nodes[1..]| && nodes[1..][i] == Leaf(UnexpectedResponse(code))
              && forall j :: 0 <= j < i ==> !(nodes[1..][j].Leaf? && nodes[1..][j].kind.UnexpectedResponse?) {
        assert nodes[i + 1] == nodes[1..][i];
        assert forall j :: 1 <= j < i + 1 ==> nodes[j] == nodes[1..][j - 1];
      }
    }
  }

  lemma {:induction false} S3Exactly(nodes: seq<Error>, code: int)
    ensures FirstS3Code(nodes) == Some(code) <==> FirstS3(nodes, code)
  {
    if nodes != [] && !(nodes[0].Leaf? && nodes[0].kind.S3Response?) {
      S3Exactly(nodes[1..], code);
      if i :| 0 <= i < |nodes[1..]| && nodes[1..][i] == Leaf(S3Response(code))
              && forall j :: 0 <= j < i ==> !(nodes[1..][j].Leaf? && nodes[1..][j].kind.S3Response?) {
        assert nodes[i + 1] == nodes[1..][i];
        assert forall j :: 1 <= j < i + 1 ==> nodes[j] == nodes[1..][j - 1];
      }
    }
  }

  lemma StatusExactly(nodes: seq<Error>, code: int)
    ensures (if FirstOpenStackCode(nodes).Some? then FirstOpenStackCode(nodes) else FirstS3Code(nodes)) == Some(code)
            <==> StatusIs(nodes, code)
  {
    var first := FirstOpenStackCode(nodes);
    OpenStackExactly(nodes, code);
    if first.Some? {
      OpenStackExactly(nodes, first.value);
    } else {
      NoOpenStack(nodes);
      S3Exactly(nodes, code);
    }
  }

  lemma NoOpenStack(nodes: seq<Error>)
    requires FirstOpenStackCode(nodes).None?
    ensures forall c :: !FirstOpenStack(nodes, c)
  {
    forall c ensures !FirstOpenStack(nodes, c) { OpenStackExactly(nodes, c); }
  }

  lemma {:induction false} TimeoutExactly(nodes: seq<Error>)
    ensures FirstNetTimeout(nodes) <==> TimesOut(nodes)
  {
    if nodes != [] && NetTimeout(nodes[0]).None? {
      TimeoutExactly(nodes[1..]);
      if i :| 0 <= i < |nodes[1..]| && IsNet(nodes[1..][i], true)
              && forall j :: 0 <= j < i ==> !IsNet(nodes[1..][j], false) && !IsNet(nodes[1..][j], true) {
        assert nodes[i + 1] == nodes[1..][i];
        assert forall j :: 1 <= j < i + 1 ==> nodes[j] == nodes[1..][j - 1];
      }
      if i :| 0 <= i < |nodes| && IsNet(nodes[i], true) && forall j :: 0 <= j < i ==> !IsNet(nodes[j], false) && !IsNet(nodes[j], true) {
        assert nodes[1..][i - 1] == nodes[i];
      }
    }
  }

  /** Outside re-authentications an error with a status is judged by it: a refusal to
      authenticate, or worth another try for 408, 429 and from 500 on. One without is worth
      another try if it is a timeout or a connection that broke. */
  lemma JudgedExactly(e: Error)
    requires forall n :: Under(e, n) ==> !n.Reauth?
    ensures forall code :: StatusIs(Visit(e), code) ==>
      (IsTransient(e) <==> code == 408 || code == 429 || code >= 500) && (IsAuthFailure(e) <==> code == 401 || code == 403)
    ensures (forall code :: !StatusIs(Visit(e), code)) ==>
      (IsTransient(e) <==> TimesOut(Visit(e)) || exists kind :: Broken(e, kind)) && !IsAuthFailure(e)
  {
    forall n ensures n in Visit(e) <==> Under(e, n) { VisitExactly(e, n); }
    forall code ensures HttpStatus(e) == Some(code) <==> StatusIs(Visit(e), code) { StatusExactly(Visit(e), code); }
    TimeoutExactly(Visit(e));
    BrokenExactly(e);
  }

  lemma BrokenExactly(e: Error)
    ensures (exists kind :: Broken(e, kind)) <==>
      Is(e, Sys(ConnReset)) || Is(e, Sys(ConnAborted)) || Is(e, Sys(BrokenPipe)) || Is(e, Sys(ConnRefused))
      || Is(e, EOF) || Is(e, UnexpectedEOF) || Is(e, NetClosed)
  {
    forall kind ensures Is(e, kind) <==> Under(e, Leaf(kind)) { VisitExactly(e, Leaf(kind)); }
    if Is(e, Sys(ConnReset)) { assert Broken(e, Sys(ConnReset)); }
    if Is(e, Sys(ConnAborted)) { assert Broken(e, Sys(ConnAborted)); }
    if Is(e, Sys(BrokenPipe)) { assert Broken(e, Sys(BrokenPipe)); }
    if Is(e, Sys(ConnRefused)) { assert Broken(e, Sys(ConnRefused)); }
    if Is(e, EOF) { assert Broken(e, EOF); }
    if Is(e, UnexpectedEOF) { assert Broken(e, UnexpectedEOF); }
    if Is(e, NetClosed) { assert Broken(e, NetClosed); }
  }

  /** Cancelled: one of the two context errors is the error or under its wrappers and joins. */
  lemma CancelledExactly(e: Error)
    ensures IsCancellation(e) <==> Under(e, Leaf(Canceled)) || Under(e, Leaf(DeadlineExceeded))
  {
    VisitExactly(e, Leaf(Canceled));
    VisitExactly(e, Leaf(DeadlineExceeded));
  }
}
