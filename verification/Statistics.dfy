/** The running counts of observed values: server/action/statistics.go. */
module Statistics {
  import opened Strings
  import opened Records

  datatype Count = Count(count: nat, servers: set<string>, uptime: int)

  // The types of events that are counted, and the field whose values are.
  const MAIN_FIELDS: map<string, string> := map[
    "process" := "name",
    "userlist" := "name",
    "listening" := "address",
    "connection" := "remote",
    "loginlog" := "remote",
    "startup" := "name",
    "crontab" := "command",
    "service" := "name"
  ]

  predicate Tracked(typ: string) {
    typ in MAIN_FIELDS
  }

  function MainField(typ: string): string
    requires Tracked(typ)
  {
    MAIN_FIELDS[typ]
  }

  // A record with the port cut off the remote address of a connection.
  function Shortened(typ: string, v: Record): Record
    requires Tracked(typ)
  {
    if typ == "connection" then v[MainField(typ) := BeforeColon(Get(v, MainField(typ)))] else v
  }

  // The row that counts a record, once its address is shortened.
  function RowOf(typ: string, v: Record): Row
    requires Tracked(typ)
  {
    Row(typ, Get(v, MainField(typ)))
  }

  // The values that are counted for a list of records.
  function Column(typ: string, data: seq<Record>): (c: seq<string>)
    requires Tracked(typ)
    ensures |c| == |data|
  {
    seq(|data|, i requires 0 <= i < |data| => Get(Shortened(typ, data[i]), MainField(typ)))
  }

  lemma ColumnAt(typ: string, data: seq<Record>, i: nat)
    requires Tracked(typ) && i < |data|
    ensures Row(typ, Column(typ, data)[i]) == RowOf(typ, Shortened(typ, data[i]))
  {
  }

  function CountOf(rows: map<Row, Count>, r: Row): nat {
    if r in rows then rows[r].count else 0
  }

  function ServersOf(rows: map<Row, Count>, r: Row): set<string> {
    if r in rows then rows[r].servers else {}
  }

  // A row after n more occurrences on a host.
  function Updated(rows: map<Row, Count>, r: Row, n: nat, ip: string, uptime: int): Count {
    Count(CountOf(rows, r) + n, ServersOf(rows, r) + {ip}, uptime)
  }

  // rows' is rows after the listed values were seen on a host: the rows of those
  // values are brought up to date, no other row changes.
  ghost predicate Counted(rows: map<Row, Count>, rows': map<Row, Count>, typ: string, ip: string, values: seq<string>, uptime: int) {
    && (forall v :: v in values ==>
         Row(typ, v) in rows' && rows'[Row(typ, v)] == Updated(rows, Row(typ, v), multiset(values)[v], ip, uptime))
    && (forall r: Row :: r.typ != typ || r.info !in values ==>
         (r in rows' <==> r in rows) && (r in rows ==> rows'[r] == rows[r]))
  }

  // One occurrence.
  function Bumped(rows: map<Row, Count>, r: Row, ip: string, uptime: int): map<Row, Count> {
    rows[r := Updated(rows, r, 1, ip, uptime)]
  }

  lemma CountedStep(rows: map<Row, Count>, rows': map<Row, Count>, typ: string, ip: string, values: seq<string>, v: string, uptime: int)
    requires Counted(rows, rows', typ, ip, values, uptime)
    ensures Counted(rows, Bumped(rows', Row(typ, v), ip, uptime), typ, ip, values + [v], uptime)
  {
    assert multiset(values + [v]) == multiset(values) + multiset{v};
    assert v !in values ==> multiset(values)[v] == 0;
  }

  lemma NothingCounted(rows: map<Row, Count>, typ: string, ip: string, uptime: int)
    ensures Counted(rows, rows, typ, ip, [], uptime)
  {
  }

  class StatisticsTable {
    var rows: map<Row, Count>

    method CountRecord(typ: string, ip: string, v: Record, uptime: int) returns (v': Record)
      requires Tracked(typ)
      modifies this
      ensures v' == Shortened(typ, v)
      ensures rows == Bumped(old(rows), RowOf(typ, v'), ip, uptime)
    {
      hide MainField, BeforeColon, Get;
      var k := MainField(typ);
      v' := v;
      if typ == "connection" {
        v' := v'[k := BeforeColon(Get(v', k))];
      }
      var r := Row(typ, Get(v', k));
      if r in rows {
        rows := rows[r := Count(rows[r].count + 1, rows[r].servers + {ip}, uptime)];
      } else {
        assert ServersOf(rows, r) + {ip} == {ip};
        rows := rows[r := Count(1, {ip}, uptime)];
      }
    }

    // The loop over the records; those of connections are changed in place.
    method CountRecords(typ: string, ip: string, data: array<Record>, uptime: int)
      requires Tracked(typ)
      modifies this, data
      ensures Counted(old(rows), rows, typ, ip, Column(typ, old(data[..])), uptime)
      ensures forall j :: 0 <= j < data.Length ==> data[j] == Shortened(typ, old(data[..])[j])
    {
      hide *;
      ghost var counts, before := rows, data[..];
      ghost var column := Column(typ, before);
      NothingCounted(rows, typ, ip, uptime);
      for i := 0 to data.Length
        invariant Counted(counts, rows, typ, ip, column[..i], uptime)
        invariant forall j :: 0 <= j < i ==> data[j] == Shortened(typ, before[j])
        invariant forall j :: i <= j < data.Length ==> data[j] == before[j]
      {
        CountedStep(counts, rows, typ, ip, column[..i], column[i], uptime);
        ColumnAt(typ, before, i);
        var v := CountRecord(typ, ip, data[i], uptime);
        data[i] := v;
        assert column[..i + 1] == column[..i] + [column[i]];
      }
      assert column[..data.Length] == column;
    }

    // Counts every record once, when its type is tracked.
    method ResultStat(typ: string, ip: string, data: array<Record>, uptime: int)
      modifies this, data
      ensures !Tracked(typ) ==> rows == old(rows) && data[..] == old(data[..])
      ensures Tracked(typ) ==> Counted(old(rows), rows, typ, ip, Column(typ, old(data[..])), uptime)
      ensures Tracked(typ) ==> forall j :: 0 <= j < data.Length ==> data[j] == Shortened(typ, old(data[..])[j])
      ensures typ != "connection" ==> data[..] == old(data[..])
      ensures typ == "connection" ==> forall j :: 0 <= j < data.Length ==>
        data[j] == old(data[..])[j]["remote" := BeforeColon(Get(old(data[..])[j], "remote"))]
    {
      if Tracked(typ) {
        hide Counted, Column, Shortened, Tracked;
        CountRecords(typ, ip, data, uptime);
      }
    }
  }
}

/** Receiving an agent's report: server/server.go. */
module Reports {
  import opened Records
  import opened Statistics

  datatype DataInfo = DataInfo(typ: string, ip: string, system: string, data: array<Record>)

  class Watcher {
    const table: StatisticsTable
    var scanChan: seq<DataInfo>
    ghost var whenQueued: seq<map<Row, Count>>  // the statistics at the moment each report was queued

    constructor (table: StatisticsTable)
      ensures this.table == table && scanChan == [] && whenQueued == []
    {
      this.table, scanChan, whenQueued := table, [], [];
    }

    method Enqueue(info: DataInfo)
      modifies this`scanChan, this`whenQueued
      ensures scanChan == old(scanChan) + [info] && whenQueued == old(whenQueued) + [table.rows]
    {
      scanChan := scanChan + [info];
      whenQueued := whenQueued + [table.rows];
    }

    // A report without records is ignored. Any other is queued for the scanners
    // when its records have been counted, and with the records as counting left them.
    method PutInfo(info: DataInfo, uptime: int) returns (result: nat)
      modifies this`scanChan, this`whenQueued, table, info.data
      ensures info.data.Length == 0 ==>
        result == 0 && scanChan == old(scanChan) && whenQueued == old(whenQueued) && table.rows == old(table.rows)
      ensures info.data.Length > 0 ==>
        && result == 1 && scanChan == old(scanChan) + [info] && whenQueued == old(whenQueued) + [table.rows]
        && (Tracked(info.typ) ==> Counted(old(table.rows), whenQueued[|old(whenQueued)|], info.typ, info.ip, Column(info.typ, old(info.data[..])), uptime))
        && (Tracked(info.typ) ==> forall j :: 0 <= j < info.data.Length ==> info.data[j] == Shortened(info.typ, old(info.data[..])[j]))
      ensures !Tracked(info.typ) ==> table.rows == old(table.rows) && info.data[..] == old(info.data[..])
    {
      hide Counted, Column, Shortened, Tracked;
      if info.data.Length == 0 {
        return 0;
      }
      table.ResultStat(info.typ, info.ip, info.data, uptime);
      Enqueue(info);
      return 1;
    }
  }
}
