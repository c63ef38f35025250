/**
 The demonstration scenario of the program and two small cases: a key given
 twice, and two empty configurations.
 */
module Scenario {
  import opened Text
  import opened Parser
  import opened Diff

  /** The first demonstration configuration, with its surrounding blank lines. */
  const Config1: string := "\nhostname=server1\ntimeout=30\nretries=3\n"

  /** The second demonstration configuration. */
  const Config2: string := "\nhostname=server2\ntimeout=30\nport=8080\n"

  lemma SplitThree(l1: string, l2: string, l3: string)
    requires '\n' !in l1 && '\n' !in l2 && '\n' !in l3
    ensures Split(l1 + "\n" + l2 + "\n" + l3, '\n') == [l1, l2, l3]
  {
    assert [l1, l2, l3][1..] == [l2, l3];
    assert [l2, l3][1..] == [l3];
    assert Join([l3], '\n') == l3;
    assert Join([l2, l3], '\n') == l2 + "\n" + l3;
    assert Join([l1, l2, l3], '\n') == l1 + "\n" + (l2 + "\n" + l3);
    assert l1 + "\n" + (l2 + "\n" + l3) == l1 + "\n" + l2 + "\n" + l3;
    SplitJoin([l1, l2, l3], '\n');
  }

  lemma ParseLinesThree(l1: string, l2: string, l3: string)
    ensures ParseLines([l1, l2, l3]) == Apply(Apply(Apply(map[], ParseLine(l1)), ParseLine(l2)), ParseLine(l3))
  {
    ParseLinesSnoc([], l1);
    assert [] + [l1] == [l1];
    ParseLinesSnoc([l1], l2);
    assert [l1] + [l2] == [l1, l2];
    ParseLinesSnoc([l1, l2], l3);
    assert [l1, l2] + [l3] == [l1, l2, l3];
  }

  /** Three `key=value` lines between two newlines parse to a map of three keys. */
  lemma ParseThree(k1: string, v1: string, k2: string, v2: string, k3: string, v3: string)
    requires '=' !in k1 && '\n' !in k1 && IsStripped(k1) && k1 != []
    requires '=' !in k2 && '\n' !in k2 && IsStripped(k2)
    requires '=' !in k3 && '\n' !in k3 && IsStripped(k3)
    requires '\n' !in v1 && IsStripped(v1)
    requires '\n' !in v2 && IsStripped(v2)
    requires '\n' !in v3 && IsStripped(v3) && v3 != []
    ensures Parse("\n" + (k1 + "=" + v1) + "\n" + (k2 + "=" + v2) + "\n" + (k3 + "=" + v3) + "\n")
         == map[k1 := v1][k2 := v2][k3 := v3]
  {
    var l1, l2, l3 := k1 + "=" + v1, k2 + "=" + v2, k3 + "=" + v3;
    var body := l1 + "\n" + l2 + "\n" + l3;
    assert IsStripped(body) by {
      assert body[0] == k1[0];
      assert body[|body| - 1] == v3[|v3| - 1];
    }
    assert "\n" + l1 + "\n" + l2 + "\n" + l3 + "\n" == "\n" + body + "\n";
    StripUnique("\n", body, "\n");
    SplitThree(l1, l2, l3);
    ParseLinesThree(l1, l2, l3);
    EntryParsesBack(k1, v1);
    EntryParsesBack(k2, v2);
    EntryParsesBack(k3, v3);
  }

  lemma Config1Layout()
    ensures Config1 == "\n" + ("hostname" + "=" + "server1") + "\n" + ("timeout" + "=" + "30") + "\n" + ("retries" + "=" + "3") + "\n"
  {
  }

  lemma Config2Layout()
    ensures Config2 == "\n" + ("hostname" + "=" + "server2") + "\n" + ("timeout" + "=" + "30") + "\n" + ("port" + "=" + "8080") + "\n"
  {
  }

  lemma Example1Parses()
    ensures Parse(Config1) == map["hostname" := "server1", "timeout" := "30", "retries" := "3"]
  {
    Config1Layout();
    ParseThree("hostname", "server1", "timeout", "30", "retries", "3");
  }

  lemma Example2Parses()
    ensures Parse(Config2) == map["hostname" := "server2", "timeout" := "30", "port" := "8080"]
  {
    Config2Layout();
    ParseThree("hostname", "server2", "timeout", "30", "port", "8080");
  }

  /** The demonstration report: `port` added, `retries` removed, `hostname` modified. */
  lemma ExampleReport()
    ensures forall report :: Describes(Parse(Config1), Parse(Config2), report) ==>
              report == DiffReport(["port=8080"], ["retries=3"], [Change("hostname=server1", "hostname=server2")])
  {
    Example1Parses();
    Example2Parses();
    ExampleKeys(Parse(Config1), Parse(Config2));
    forall report | Describes(Parse(Config1), Parse(Config2), report)
      ensures report == DiffReport(["port=8080"], ["retries=3"], [Change("hostname=server1", "hostname=server2")])
    {
      ExampleDiff(Parse(Config1), Parse(Config2), report);
    }
  }

  lemma ExampleDiff(d1: Config, d2: Config, report: DiffReport)
    requires AddedKeys(d1, d2) == {"port"} && RemovedKeys(d1, d2) == {"retries"} && ModifiedKeys(d1, d2) == {"hostname"}
    requires d2["port"] == "8080" && d1["retries"] == "3"
    requires d1["hostname"] == "server1" && d2["hostname"] == "server2"
    requires Describes(d1, d2, report)
    ensures report == DiffReport(["port=8080"], ["retries=3"], [Change("hostname=server1", "hostname=server2")])
  {
    var a, r, m :| Produces(d1, d2, report, a, r, m);
    SingletonEnumeration(a, "port");
    SingletonEnumeration(r, "retries");
    SingletonEnumeration(m, "hostname");
    assert Entry("port", "8080") == "port=8080";
    assert Entry("retries", "3") == "retries=3";
    assert Entry("hostname", "server1") == "hostname=server1";
    assert Entry("hostname", "server2") == "hostname=server2";
  }

  lemma ExampleKeys(d1: Config, d2: Config)
    requires d1 == map["hostname" := "server1", "timeout" := "30", "retries" := "3"]
    requires d2 == map["hostname" := "server2", "timeout" := "30", "port" := "8080"]
    ensures AddedKeys(d1, d2) == {"port"}
    ensures RemovedKeys(d1, d2) == {"retries"}
    ensures ModifiedKeys(d1, d2) == {"hostname"}
  {
    assert d1.Keys == {"hostname", "timeout", "retries"};
    assert d2.Keys == {"hostname", "timeout", "port"};
  }

  lemma SingletonEnumeration(order: seq<string>, key: string)
    requires IsEnumeration(order, {key})
    ensures order == [key]
  {
    EnumerationSize(order, {key});
    assert order[0] in {key};
  }

  /** Two lines that set the same key. */
  const Duplicated: string := "a=1\na=2"

  lemma SplitTwo(l1: string, l2: string)
    requires '\n' !in l1 && '\n' !in l2
    ensures Split(l1 + "\n" + l2, '\n') == [l1, l2]
  {
    assert [l1, l2][1..] == [l2];
    assert Join([l2], '\n') == l2;
    assert Join([l1, l2], '\n') == l1 + "\n" + l2;
    SplitJoin([l1, l2], '\n');
  }

  lemma ParseLinesTwo(l1: string, l2: string)
    ensures ParseLines([l1, l2]) == Apply(Apply(map[], ParseLine(l1)), ParseLine(l2))
  {
    ParseLinesSnoc([], l1);
    assert [] + [l1] == [l1];
    ParseLinesSnoc([l1], l2);
    assert [l1] + [l2] == [l1, l2];
  }

  lemma ParseTwoLines(l1: string, l2: string)
    requires '\n' !in l1 && '\n' !in l2 && IsStripped(l1 + "\n" + l2)
    ensures Parse(l1 + "\n" + l2) == ParseLines([l1, l2])
  {
    StripStripped(l1 + "\n" + l2);
    SplitTwo(l1, l2);
  }

  lemma LinesOfOneKey(key: string, v1: string, v2: string)
    requires '=' !in key && IsStripped(key) && IsStripped(v1) && IsStripped(v2)
    ensures ParseLines([key + "=" + v1, key + "=" + v2]) == map[key := v2]
  {
    ParseLinesTwo(key + "=" + v1, key + "=" + v2);
    EntryParsesBack(key, v1);
    EntryParsesBack(key, v2);
    Overwrite(map[key := v1], key, v2);
  }

  lemma StrippedLines(first: string, mid: string, last: string)
    requires first != [] && !IsSpace(first[0])
    requires last != [] && !IsSpace(last[|last| - 1])
    ensures IsStripped(first + mid + last)
  {
    var s := first + mid + last;
    assert s[0] == first[0];
    assert s[|s| - 1] == last[|last| - 1];
  }

  lemma ParseTwoOfOneKey(key: string, v1: string, v2: string)
    requires '=' !in key && '\n' !in key && IsStripped(key) && key != []
    requires '\n' !in v1 && IsStripped(v1)
    requires '\n' !in v2 && IsStripped(v2) && v2 != []
    ensures Parse((key + "=" + v1) + "\n" + (key + "=" + v2)) == map[key := v2]
  {
    var l1, l2 := key + "=" + v1, key + "=" + v2;
    assert l1[0] == key[0] && l2[|l2| - 1] == v2[|v2| - 1];
    StrippedLines(l1, "\n", l2);
    ParseTwoLines(l1, l2);
    LinesOfOneKey(key, v1, v2);
  }

  lemma Overwrite(m: Config, key: string, value: string)
    requires m.Keys == {key}
    ensures m[key := value] == map[key := value]
  {
  }

  lemma DuplicatedLayout()
    ensures Duplicated == ("a" + "=" + "1") + "\n" + ("a" + "=" + "2")
  {
  }

  /** A key given on two lines keeps the value of the second. */
  lemma DuplicateKeyLastWins()
    ensures Parse(Duplicated) == map["a" := "2"]
  {
    DuplicatedLayout();
    ParseTwoOfOneKey("a", "1", "2");
  }

  /** Two empty configurations give an empty report. */
  lemma EmptyInputs(report: DiffReport)
    requires Describes(Parse(""), Parse(""), report)
    ensures Parse("") == map[]
    ensures report == DiffReport([], [], [])
  {
    BlankTextParsesEmpty("");
    SelfComparison(Parse(""), report);
  }
}
