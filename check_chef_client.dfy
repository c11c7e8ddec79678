/**
 * The chef-client probe: it reads the first line of `knife status` output
 * for one node and reports the leading number of that line (how long ago
 * the node's last chef-client run was, "2 hours ago, ..." giving 2) as its
 * single metric.
 */
module CheckChefClient {
  import opened Wrappers
  import opened PyStr
  import opened NagiosPlugin

  /** The label of the probe's metric. */
  const MetricName := "chef-client run"

  /** The context name under which the probe's metric is judged. */
  const Context := "chef_client"

  /** The argv tokens that are placed around the node filter. */
  const Knife := "/usr/bin/knife"
  const Status := "status"
  const ConfigFlag := "-c"
  const ConfigFile := "/etc/chef/client.rb"
  const HostnamePrefix := "hostname:"

  /**
   * `getKnifeStatusCommand(hostname)`: the command line
   * `/usr/bin/knife status hostname:<hostname> -c /etc/chef/client.rb` split
   * on whitespace. A hostname without whitespace stays one token.
   */
  function KnifeStatusCommand(hostname: string): (argv: seq<string>)
    ensures argv == [Knife, Status] + Split(HostnamePrefix + hostname) + [ConfigFlag, ConfigFile]
    ensures (forall i :: 0 <= i < |hostname| ==> !IsSpace(hostname[i])) ==>
      argv == [Knife, Status, HostnamePrefix + hostname, ConfigFlag, ConfigFile]
  {
    KnifeStatusCommandTokens(hostname);
    Split("/usr/bin/knife status hostname:" + hostname + " -c /etc/chef/client.rb")
  }

  /** How the formatted command line falls apart into tokens. */
  lemma KnifeStatusCommandTokens(hostname: string)
    ensures Split("/usr/bin/knife status hostname:" + hostname + " -c /etc/chef/client.rb")
      == [Knife, Status] + Split(HostnamePrefix + hostname) + [ConfigFlag, ConfigFile]
    ensures (forall i :: 0 <= i < |hostname| ==> !IsSpace(hostname[i])) ==>
      Split(HostnamePrefix + hostname) == [HostnamePrefix + hostname]
  {
    CommandLineParts(hostname);
    ConstantWords();
    FiveTokens(Knife, Status, HostnamePrefix + hostname, ConfigFlag, ConfigFile);
    if forall i :: 0 <= i < |hostname| ==> !IsSpace(hostname[i]) {
      WordConcat(HostnamePrefix, hostname);
      SplitWord(HostnamePrefix + hostname);
    }
  }

  /**
   * The formatted command line is the five parts joined by single spaces.
   * The literal halves `CommandHead`/`CommandTail` and the re-association
   * steps below are not logically needed; they only keep the solver steady
   * on the long string literal across random seeds.
   */
  lemma CommandLineParts(hostname: string)
    ensures "/usr/bin/knife status hostname:" + hostname + " -c /etc/chef/client.rb"
      == Knife + [' '] + (Status + [' '] + ((HostnamePrefix + hostname) + [' '] + (ConfigFlag + [' '] + ConfigFile)))
  {
    CommandHead();
    CommandTail();
    var node := HostnamePrefix + hostname;
    var flags := ConfigFlag + [' '] + ConfigFile;
    calc {
      "/usr/bin/knife status hostname:" + hostname + " -c /etc/chef/client.rb";
      (Knife + [' '] + (Status + [' '] + HostnamePrefix)) + hostname + ([' '] + flags);
      Knife + [' '] + ((Status + [' '] + HostnamePrefix) + hostname + ([' '] + flags));
      Knife + [' '] + (Status + [' '] + (node + [' '] + flags));
    }
  }

  /** The text in front of the hostname (a solver aid for `CommandLineParts`). */
  lemma CommandHead()
    ensures "/usr/bin/knife status hostname:" == Knife + [' '] + (Status + [' '] + HostnamePrefix)
  {
  }

  /** The text after the hostname (a solver aid for `CommandLineParts`). */
  lemma CommandTail()
    ensures " -c /etc/chef/client.rb" == [' '] + (ConfigFlag + [' '] + ConfigFile)
  {
  }

  /** The fixed tokens of the command line are words. */
  lemma ConstantWords()
    ensures IsWord(Knife) && IsWord(Status) && IsWord(ConfigFlag) && IsWord(ConfigFile)
    ensures IsWord(HostnamePrefix)
  {
  }

  /** Words and a middle part joined by single spaces split into the words and the middle's tokens. */
  lemma FiveTokens(a: string, b: string, middle: string, c: string, d: string)
    requires IsWord(a) && IsWord(b) && IsWord(c) && IsWord(d)
    ensures Split(a + [' '] + (b + [' '] + (middle + [' '] + (c + [' '] + d))))
      == [a, b] + Split(middle) + [c, d]
  {
    var t1 := c + [' '] + d;
    var t2 := middle + [' '] + t1;
    var t3 := b + [' '] + t2;
    SplitWord(c);
    SplitWord(d);
    SplitAppend(c, ' ', d);
    assert Split(t1) == [c, d];
    SplitAppend(middle, ' ', t1);
    SplitWord(b);
    SplitAppend(b, ' ', t2);
    assert Split(t3) == [b] + (Split(middle) + [c, d]);
    SplitWord(a);
    SplitAppend(a, ' ', t3);
  }

  /**
   * `getLastUpdate(statusLine)`: `int()` of the first whitespace-separated
   * token; IndexError when the line has no token, ValueError when the token
   * is not a decimal integer.
   */
  function LastUpdate(statusLine: string): Result<int, PyError>
  {
    var tokens := Split(statusLine);
    if tokens == [] then Err(PopFromEmptyList) else ParseInt(tokens[0])
  }

  /** The metric list `ChefClient.probe` builds from one status line, or the error it raises. */
  function LineMetrics(statusLine: string): Result<seq<Metric<int>>, PyError>
  {
    match LastUpdate(statusLine)
    case Ok(n) => Ok([Metric(MetricName, n, Context)])
    case Err(e) => Err(e)
  }

  /** What `ChefClient.probe` returns for the lines `knife status` printed. */
  function ProbeResult(lines: seq<Option<string>>): Result<seq<Metric<int>>, PyError>
  {
    if lines == [] then Ok([])
    else match lines[0]
      case Some(line) => LineMetrics(line)
      case None => ProbeResult(lines[1..])
  }

  /**
   * `ChefClient.probe` on the output of `getNodeStatus`: the first line
   * that is not `None` is turned into the metric; the loop returns there.
   */
  method Probe(lines: seq<Option<string>>) returns (r: Result<seq<Metric<int>>, PyError>)
    ensures r == ProbeResult(lines)
  {
    var i := 0;
    while i < |lines|
      invariant 0 <= i <= |lines|
      invariant ProbeResult(lines[i..]) == ProbeResult(lines)
    {
      assert lines[i..][0] == lines[i] && lines[i..][1..] == lines[i + 1..];
      if lines[i].Some? {
        match LastUpdate(lines[i].value)
        case Ok(n) => return Ok([Metric(MetricName, n, Context)]);
        case Err(e) => return Err(e);
      }
      i := i + 1;
    }
    return Ok([]);
  }

  // ---------------------------------------------------------------------
  // Properties of getLastUpdate
  // ---------------------------------------------------------------------

  /**
   * After leading whitespace, a token followed by whitespace or the end of
   * the line decides the result alone: the rest of the line is never read.
   */
  lemma LastUpdateFirstToken(lead: string, token: string, rest: string)
    requires AllSpace(lead) && IsWord(token)
    requires rest == [] || IsSpace(rest[0])
    ensures LastUpdate(lead + token + rest) == ParseInt(token)
  {
    SplitWordFirst(lead, token, rest);
  }

  /** Changing the text after the first token and the whitespace behind it does not change the result. */
  lemma LastUpdateIgnoresTail(token: string, sep: char, tail1: string, tail2: string)
    requires IsWord(token) && IsSpace(sep)
    ensures LastUpdate(token + [sep] + tail1) == LastUpdate(token + [sep] + tail2)
  {
    LastUpdateFirstToken([], token, [sep] + tail1);
    LastUpdateFirstToken([], token, [sep] + tail2);
    assert [] + token + ([sep] + tail1) == token + [sep] + tail1;
    assert [] + token + ([sep] + tail2) == token + [sep] + tail2;
  }

  /** After optional whitespace, the decimal form of `n` followed by whitespace or the end of the line reports `n`. */
  lemma LastUpdateReads(lead: string, n: int, rest: string)
    requires AllSpace(lead)
    requires rest == [] || IsSpace(rest[0])
    ensures LastUpdate(lead + ShowInt(n) + rest) == Ok(n)
  {
    ParseShowInt(n);
    var digits := if n < 0 then ShowNat(-n) else ShowNat(n);
    ShowNatDigits(if n < 0 then -n else n);
    assert IsWord(ShowInt(n)) by {
      var s := ShowInt(n);
      forall i | 0 <= i < |s| ensures !IsSpace(s[i]) {
        if n < 0 && i > 0 { assert s[i] == digits[i - 1]; }
      }
    }
    LastUpdateFirstToken(lead, ShowInt(n), rest);
  }

  /** The sample `knife status` line quoted in the probe's description. */
  const DocumentedLine :=
    "2 hours ago, " + "sprcom-services-dev-01, " + "sprcom-dev-01.springer-sbm.com, " + "10.9.0.65, centos 6.5."

  /** The documented line reports 2. */
  lemma LastUpdateDocumentedLine()
    ensures LastUpdate(DocumentedLine) == Ok(2)
  {
    var rest := " hours ago, " + "sprcom-services-dev-01, " + "sprcom-dev-01.springer-sbm.com, " + "10.9.0.65, centos 6.5.";
    DocumentedLineStart();
    LeadingTwo(rest);
  }

  /**
   * The documented line is `2` followed by text that starts with a space.
   * The assert only steadies the solver on the literal; it is not needed.
   */
  lemma DocumentedLineStart()
    ensures DocumentedLine
      == "2" + (" hours ago, " + "sprcom-services-dev-01, " + "sprcom-dev-01.springer-sbm.com, " + "10.9.0.65, centos 6.5.")
  {
    assert "2 hours ago, " == "2" + " hours ago, ";
  }

  /** A line that starts with `2` and a space reports 2. */
  lemma LeadingTwo(rest: string)
    requires rest != [] && rest[0] == ' '
    ensures LastUpdate("2" + rest) == Ok(2)
  {
    assert ShowInt(2) == "2";
    assert [] + ShowInt(2) + rest == "2" + rest;
    LastUpdateReads([], 2, rest);
  }

  /** A line without any token (empty or all whitespace) raises IndexError, and only such a line does. */
  lemma LastUpdateNoToken(statusLine: string)
    ensures LastUpdate(statusLine) == Err(PopFromEmptyList) <==> AllSpace(statusLine)
  {
    SplitEmpty(statusLine);
  }

  /** A first token that is not an optionally signed decimal integer raises ValueError. */
  lemma LastUpdateBadToken(lead: string, token: string, rest: string, i: nat)
    requires AllSpace(lead) && IsWord(token)
    requires rest == [] || IsSpace(rest[0])
    requires token == "+" || token == "-" || (i < |token| && !IsDigit(token[i]) && (i > 0 || !IsSign(token[0])))
    ensures LastUpdate(lead + token + rest) == Err(InvalidIntLiteral(token))
  {
    LastUpdateFirstToken(lead, token, rest);
    ParseIntRejects(token, i);
  }

  // ---------------------------------------------------------------------
  // Properties of the probe
  // ---------------------------------------------------------------------

  /** The probe returns at most one metric, always labelled `chef-client run` in context `chef_client`. */
  lemma {:induction false} ProbeAtMostOne(lines: seq<Option<string>>)
    ensures ProbeResult(lines).Ok? ==> |ProbeResult(lines).value| <= 1
    ensures ProbeResult(lines).Ok? && ProbeResult(lines).value != [] ==>
      ProbeResult(lines).value[0].name == MetricName && ProbeResult(lines).value[0].context == Context
  {
    if lines != [] && lines[0].None? {
      ProbeAtMostOne(lines[1..]);
    }
  }

  /** The probe returns the empty list exactly when there are no lines, or only `None` lines. */
  lemma {:induction false} ProbeNoLines(lines: seq<Option<string>>)
    ensures ProbeResult(lines) == Ok([]) <==> forall i :: 0 <= i < |lines| ==> lines[i].None?
  {
    if lines != [] {
      ProbeNoLines(lines[1..]);
      if lines[0].None? {
        forall i | 0 < i < |lines| ensures lines[i] == lines[1..][i - 1] { }
      }
    }
  }

  /**
   * The result is built from the first line that is not `None` alone: its
   * metric when `getLastUpdate` succeeds on it, its error otherwise. The
   * lines after it are ignored. The ensures spells out `LineMetrics` of that
   * line, so that it reads in terms of `LastUpdate` directly.
   */
  lemma {:induction false} ProbeFirstLine(lines: seq<Option<string>>, k: nat)
    requires k < |lines| && lines[k].Some?
    requires forall j :: 0 <= j < k ==> lines[j].None?
    ensures ProbeResult(lines) == match LastUpdate(lines[k].value)
      case Ok(n) => Ok([Metric(MetricName, n, Context)])
      case Err(e) => Err(e)
  {
    if k > 0 {
      ProbeFirstLine(lines[1..], k - 1);
    }
  }
}
