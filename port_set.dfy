/** The fixed catalogue of TCP ports `scanTarget` probes, in the order it
    probes them. The source lists it in four commented groups; each group is
    written here as its own constant, and the catalogue is their
    concatenation. */
module PortSet {

  /** Infrastructure and remote access: FTP, SSH, Telnet, SMTP, DNS, HTTP,
      POP3, RPC, NetBIOS, IMAP, HTTPS, SMB and the TLS mail ports. */
  const Infrastructure: seq<int> := [21, 22, 23, 25, 53, 80, 110, 135, 139, 143, 443, 445, 587, 993, 995]

  /** Databases: MSSQL, MySQL, PostgreSQL, Redis, MongoDB. */
  const Databases: seq<int> := [1433, 3306, 5432, 6379, 27017]

  /** Remote desktop, VNC and the usual development and proxy ports. */
  const RemoteDesktop: seq<int> := [3389, 5900, 5901, 8000, 8080, 8443, 8888, 9000]

  /** Industrial and IoT: MQTT, Flask/Docker, camera UIs, ONVIF, Webmin. */
  const Iot: seq<int> := [1883, 5000, 8081, 8899, 10000]

  /** The ports of the catalogue, in declaration (and so probing) order. */
  const Ports: seq<int> := Infrastructure + Databases + RemoteDesktop + Iot

  /** A valid TCP port number. */
  predicate IsPort(p: int) { 1 <= p <= 65535 }

  /** No entry of `s` occurs twice. */
  predicate Distinct(s: seq<int>) {
    forall i, j :: 0 <= i < j < |s| ==> s[i] != s[j]
  }

  /** Each entry of `s` is smaller than the next one. */
  predicate StepsUp(s: seq<int>) {
    forall i :: 0 <= i < |s| - 1 ==> s[i] < s[i + 1]
  }

  /** No entry of `a` is an entry of `b`. */
  predicate Disjoint(a: seq<int>, b: seq<int>) {
    forall i, j :: 0 <= i < |a| && 0 <= j < |b| ==> a[i] != b[j]
  }

  /** A sequence whose every step goes up is strictly increasing, and so
      has no repeated entry. */
  lemma {:induction false} StepsUpIncreasing(s: seq<int>)
    requires StepsUp(s)
    ensures forall i, j :: 0 <= i < j < |s| ==> s[i] < s[j]
    ensures Distinct(s)
  {
    if |s| > 1 {
      var t := s[1..];
      assert StepsUp(t) by {
        forall i | 0 <= i < |t| - 1 ensures t[i] < t[i + 1] {
          assert t[i] == s[i + 1] && t[i + 1] == s[i + 2];
        }
      }
      StepsUpIncreasing(t);
      forall i, j | 0 <= i < j < |s| ensures s[i] < s[j] {
        if i == 0 {
          if j > 1 { assert s[1] == t[0] && s[j] == t[j - 1]; }
        } else {
          assert s[i] == t[i - 1] && s[j] == t[j - 1];
        }
      }
    }
  }

  /** Two sequences without repeats and with no entry in common make one
      without repeats. */
  lemma {:induction false} DistinctConcat(a: seq<int>, b: seq<int>)
    requires Distinct(a) && Distinct(b) && Disjoint(a, b)
    ensures Distinct(a + b)
  {
    var c := a + b;
    forall i, j | 0 <= i < j < |c| ensures c[i] != c[j] {
      if j < |a| {
        assert c[i] == a[i] && c[j] == a[j];
      } else if i < |a| {
        assert c[i] == a[i] && c[j] == b[j - |a|];
      } else {
        assert c[i] == b[i - |a|] && c[j] == b[j - |a|];
      }
    }
  }

  /** Every entry of `a` lies below every entry of `b`. */
  lemma {:induction false} Below(a: seq<int>, b: seq<int>, bound: int)
    requires forall i :: 0 <= i < |a| ==> a[i] < bound
    requires forall j :: 0 <= j < |b| ==> bound <= b[j]
    ensures Disjoint(a, b)
  {
  }

  lemma {:induction false} GroupsStepUp()
    ensures StepsUp(Infrastructure) && StepsUp(Databases)
    ensures StepsUp(RemoteDesktop) && StepsUp(Iot)
  {
  }

  lemma {:induction false} GroupsDisjoint()
    ensures Disjoint(Databases, RemoteDesktop)
    ensures Disjoint(Databases + RemoteDesktop, Iot)
  {
    var d := Databases + RemoteDesktop;
    assert forall i :: 0 <= i < |d| ==> d[i] in {1433, 3306, 5432, 6379, 27017, 3389, 5900, 5901, 8000, 8080, 8443, 8888, 9000};
  }

  /** The catalogue has no repeated port. */
  lemma {:induction false} CatalogDistinct()
    ensures Distinct(Ports)
  {
    GroupsStepUp();
    StepsUpIncreasing(Infrastructure);
    StepsUpIncreasing(Databases);
    StepsUpIncreasing(RemoteDesktop);
    StepsUpIncreasing(Iot);
    GroupsDisjoint();
    DistinctConcat(Databases, RemoteDesktop);
    DistinctConcat(Databases + RemoteDesktop, Iot);
    var rest := Databases + RemoteDesktop + Iot;
    Below(Infrastructure, rest, 1000);
    DistinctConcat(Infrastructure, rest);
    assert Ports == Infrastructure + rest;
  }

  /** The catalogue holds 33 distinct valid ports; it starts with FTP, SSH
      and Telnet and ends with 8899 and 10000. */
  lemma {:induction false} CatalogShape()
    ensures |Ports| == 33
    ensures Ports[..3] == [21, 22, 23] && Ports[31..] == [8899, 10000]
    ensures forall i :: 0 <= i < |Ports| ==> IsPort(Ports[i])
    ensures Distinct(Ports)
  {
    CatalogDistinct();
  }

  /** The catalogue is not in numeric order: MongoDB's 27017 is probed
      before RDP's 3389. */
  lemma {:induction false} CatalogNotSorted()
    ensures exists i, j :: 0 <= i < j < |Ports| && Ports[i] > Ports[j]
  {
    assert Ports[19] == 27017 && Ports[20] == 3389;
  }
}
