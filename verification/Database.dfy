/**
  The open database handle, MMDB_s: the descent of find_address_in_search_tree over the bytes of the file, the cached
  IPv4 start node, MMDB_lookup_sockaddr and MMDB_read_node.
 */
module Database {
  import opened Bytes
  import opened SearchTree
  import opened NodeLayout
  import opened Addresses
  import Decode

  datatype Family = INET | INET6

  /** What *mmdb_error holds after a call that may leave it alone. */
  datatype Error = NotWritten | Written(status: Status)

  datatype Request = Request(family: Family, address: seq<byte>)

  predicate GoodRequest(r: Request) {
    |r.address| == if r.family == INET then 4 else 16
  }

  /** Where the tree and the data section meet: a record and a pointer name the same byte exactly when the record is the
      pointer plus the node count and the 16 bytes of the separator. */
  lemma RecordMeetsPointer(nodeCount: nat, dataSize: nat, depth: nat, record: nat, netmask: nat,
                           mem: seq<byte>, ctrl: byte, form: nat, body: nat, base: nat)
    requires nodeCount <= record < U32_RANGE && Populate(nodeCount, dataSize, depth, record, netmask).0 == Success
    requires form < 4 && body + form + 1 <= |mem| && base + Decode.SEPARATOR < U32_RANGE
    requires Decode.PointerTarget(mem, ctrl, form, body) == (Decode.SEPARATOR + base) % U32_RANGE
    ensures var result := Populate(nodeCount, dataSize, depth, record, netmask).1;
            (result.offset == Decode.PointerTarget(mem, ctrl, form, body)) <==> (record == nodeCount + 16 + base)
  {
    hide Decode.PointerTarget;
    Small(record - nodeCount, U32_RANGE);
    Small(Decode.SEPARATOR + base, U32_RANGE);
  }

  /** A record read from the file, unless the read leaves the file. */
  datatype Fetched = OutsideFile | Fetched(record: nat)

  /** How a descent in the file ends. */
  datatype FileEnd = LeftFile | Reached(end: End)

  /** Where the walk to the IPv4 start node ends. */
  datatype FileStart = NoStart | Started(s: StartNode)

  lemma WrapsOnce(a: int, b: nat)
    ensures (a - b % U32_RANGE) % U32_RANGE == (a - b) % 0x1_0000_0000
  {
    var q := b / U32_RANGE;
    assert a - b % U32_RANGE == (a - b) + q * U32_RANGE;
    ShiftedWraps(a - b, q);
  }

  lemma ShiftedWraps(a: int, k: int)
    ensures (a + k * 0x1_0000_0000) % 0x1_0000_0000 == a % 0x1_0000_0000
  {
  }

  class Handle {
    const file: seq<byte>
    const nodeCount: nat
    const recordLength: nat
    const ipVersion: nat
    const depth: nat
    const dataSectionSize: nat
    var ipv4StartNode: StartNode

    /** The end of MMDB_open, after the metadata has been read and checked. */
    constructor (file: seq<byte>, nodeCount: nat, recordSize: nat, ipVersion: nat)
      requires 0 < nodeCount < U32_RANGE && recordSize in {24, 28, 32} && ipVersion in {4, 6}
      ensures this.file == file && this.nodeCount == nodeCount && recordLength == recordSize / 4
      ensures this.ipVersion == ipVersion && depth == if ipVersion == 4 then 32 else 128
      ensures dataSectionSize == (|file| - nodeCount * recordLength) % 0x1_0000_0000
      ensures TreeFits() && |file| - nodeCount * recordLength < U32_RANGE ==> dataSectionSize == |DataSection()|
      ensures Known() && Open() && CacheOk()
    {
      var length := recordSize * 2 / 8;
      var treeSize := nodeCount * length % U32_RANGE;
      this.file, this.nodeCount, this.ipVersion := file, nodeCount, ipVersion;
      recordLength := length;
      depth := if ipVersion == 4 then 32 else 128;
      dataSectionSize := (|file| - treeSize) % U32_RANGE;
      WrapsOnce(|file|, nodeCount * length);
      ipv4StartNode := StartNode(0, 0);
    }

    /** The search tree lies inside the file and its size does not wrap around 32 bits.  MMDB_open does not check it. */
    predicate TreeFits() {
      && nodeCount > 0 && KnownLength(recordLength)
      && nodeCount * recordLength <= |file| && nodeCount * recordLength < U32_RANGE
    }

    function DataSection(): seq<byte>
      requires TreeFits()
    {
      file[nodeCount * recordLength..]
    }

    /** The tree the file holds. */
    function Nodes(): (t: Tree)
      requires TreeFits()
      ensures |t| == nodeCount
    {
      seq(nodeCount, n requires 0 <= n < nodeCount => NodeNumber(n))
    }

    function NodeNumber(n: nat): Node
      requires TreeFits() && n < nodeCount
    {
      ReadsStayInTree(n);
      NodeAt(file, recordLength, n * recordLength)
    }

    /** Every read of a node below the node count lies below the size of the tree, and its address does not wrap. */
    lemma ReadsStayInTree(n: nat)
      requires TreeFits() && n < nodeCount
      ensures n * recordLength % U32_RANGE == n * recordLength
      ensures n * recordLength + recordLength <= nodeCount * recordLength <= |file|
    {
      Multiples(n, nodeCount, recordLength);
      assert 0 <= n * recordLength < U32_RANGE;
    }

    /** The getters, at the wrapped address, read the records of the node. */
    lemma GettersReadNode(n: nat)
      requires TreeFits() && n < nodeCount
      ensures var at := n * recordLength % U32_RANGE;
              && at + recordLength <= nodeCount * recordLength <= |file|
              && LeftRecord(file, recordLength, at) == Nodes()[n].left
              && RightRecord(file, recordLength, at + RightRecordOffset(recordLength)) == Nodes()[n].right
    {
      hide LeftRecord, RightRecord;
      ReadsStayInTree(n);
      assert Nodes()[n] == NodeNumber(n);
    }

    // ----- lookups on any file, whether the tree fits it or not -----

    /** A record of node `n`.  Its address is computed in 32 bits. */
    function Fetch(n: nat, bit: bool): Fetched
      requires KnownLength(recordLength)
    {
      var at := n * recordLength % U32_RANGE + if bit then RightRecordOffset(recordLength) else 0;
      if at + RecordBytes(recordLength) > |file| then OutsideFile
      else Fetched(if bit then RightRecord(file, recordLength, at) else LeftRecord(file, recordLength, at))
    }

    /** Node numbers whose addresses differ by a multiple of 2^32 are the same node to the reader. */
    lemma NodeAddressWraps(n: nat, m: nat, k: nat, bit: bool)
      requires KnownLength(recordLength) && n * recordLength == m * recordLength + k * 0x1_0000_0000
      ensures Fetch(n, bit) == Fetch(m, bit)
    {
      hide LeftRecord, RightRecord;
      ShiftedWraps(m * recordLength, k);
    }

    function FileWalk(v: nat, bits: Bits, at: nat): FileEnd
      requires KnownLength(recordLength) && at <= |bits|
      decreases |bits| - at
    {
      if at == |bits| then Reached(OutOfBits)
      else
        var r := Fetch(v, bits[at]);
        if r.OutsideFile? then LeftFile
        else if r.record == 0 then Reached(ZeroRecord)
        else if r.record >= nodeCount then Reached(Leaf(r.record, at + 1))
        else FileWalk(r.record, bits, at + 1)
    }

    function FileStartFrom(v: nat, i: nat): (r: FileStart)
      requires KnownLength(recordLength) && v < nodeCount && i <= 96
      ensures r.Started? ==> i <= r.s.netmask <= 96
      decreases 96 - i
    {
      if i == 96 then Started(StartNode(v, 96))
      else
        var r := Fetch(v, false);
        if r.OutsideFile? then NoStart
        else if r.record >= nodeCount then Started(StartNode(r.record, i))
        else FileStartFrom(r.record, i + 1)
    }

    function AnswerAt(end: FileEnd): (Status, LookupResult) {
      if end.LeftFile? then (Undefined, NO_RESULT) else Answer(nodeCount, dataSectionSize, end.end)
    }

    predicate Known() {
      nodeCount > 0 && KnownLength(recordLength)
    }

    /** The cache is unset or holds the fresh answer. */
    predicate CacheOk()
      reads this
      requires Known()
    {
      ipv4StartNode.nodeValue == 0 || FileStartFrom(0, 0) == Started(ipv4StartNode)
    }

    /** What a lookup answers: it depends on the file and the address alone. */
    function LookupSpec(address: seq<byte>, family: Family): (Status, LookupResult)
      requires Known() && (ipVersion == 6 ==> |address| == 16)
    {
      var bits := BitsOf(address);
      if ipVersion == 6 && family == INET then
        match FileStartFrom(0, 0)
        case NoStart => (Undefined, NO_RESULT)
        case Started(s) =>
          if s.nodeValue >= nodeCount then Populate(nodeCount, dataSectionSize, depth, s.nodeValue, s.netmask)
          else AnswerAt(FileWalk(s.nodeValue, bits, s.netmask))
      else AnswerAt(FileWalk(0, bits, 0))
    }

    lemma FetchesNode(n: nat, bit: bool)
      requires TreeFits() && n < nodeCount
      ensures Fetch(n, bit) == Fetched(Record(Nodes()[n], bit))
    {
      hide LeftRecord, RightRecord;
      GettersReadNode(n);
    }

    lemma {:induction false} WalksTree(v: nat, bits: Bits, at: nat)
      requires TreeFits() && v < nodeCount && at <= |bits|
      ensures FileWalk(v, bits, at) == Reached(Walk(Nodes(), v, bits, at))
      decreases |bits| - at
    {
      hide Nodes, Fetch;
      if at < |bits| {
        FetchesNode(v, bits[at]);
        var r := Record(Nodes()[v], bits[at]);
        if 0 < r < nodeCount {
          WalksTree(r, bits, at + 1);
        }
      }
    }

    lemma {:induction false} StartsInTree(v: nat, i: nat)
      requires TreeFits() && v < nodeCount && i <= 96
      ensures FileStartFrom(v, i) == Started(StartFrom(Nodes(), v, i))
      decreases 96 - i
    {
      hide Nodes, Fetch;
      if i < 96 {
        FetchesNode(v, false);
        var r := Nodes()[v].left;
        if r < nodeCount {
          StartsInTree(r, i + 1);
        }
      }
    }

    /** When the tree fits the file, lookups answer as the search tree it holds determines, and no read leaves the
        file. */
    lemma LooksUpInTree(address: seq<byte>, family: Family)
      requires TreeFits() && (ipVersion == 6 ==> |address| == 16 && depth == 128)
      ensures LookupSpec(address, family) ==
                if ipVersion == 6 && family == INET
                then LookupFrom(Nodes(), dataSectionSize, FreshStart(Nodes()), BitsOf(address))
                else Lookup(Nodes(), dataSectionSize, BitsOf(address))
    {
      hide Nodes, Fetch, BitsOf;
      var bits := BitsOf(address);
      StartsInTree(0, 0);
      WalksTree(0, bits, 0);
      var s := FreshStart(Nodes());
      if ipVersion == 6 && s.nodeValue < nodeCount {
        WalksTree(s.nodeValue, bits, s.netmask);
      }
    }

    /** find_ipv4_start_node. */
    method FindIpv4StartNode() returns (r: FileStart)
      requires Known() && CacheOk()
      modifies this`ipv4StartNode
      ensures r == FileStartFrom(0, 0) && CacheOk() && (r.Started? ==> ipv4StartNode == r.s)
      ensures TreeFits() ==> r == Started(FreshStart(Nodes()))
    {
      if TreeFits() {
        StartsInTree(0, 0);
      }
      if ipv4StartNode.nodeValue != 0 {
        return Started(ipv4StartNode);
      }
      hide Nodes, Fetch;
      var nodeValue: nat, netmask: nat := 0, 0;
      while netmask < 96
        invariant nodeValue < nodeCount && netmask <= 96
        invariant FileStartFrom(nodeValue, netmask) == FileStartFrom(0, 0)
      {
        var fetched := Fetch(nodeValue, false);
        if fetched.OutsideFile? {
          return NoStart;
        }
        nodeValue := fetched.record;
        if nodeValue >= nodeCount {
          break;
        }
        netmask := netmask + 1;
      }
      ipv4StartNode := ipv4StartNode.(nodeValue := nodeValue);
      ipv4StartNode := ipv4StartNode.(netmask := netmask);
      return Started(ipv4StartNode);
    }

    /** populate_result. */
    method PopulateResult(value: nat, netmask: nat, before: LookupResult)
      returns (status: Status, result: LookupResult)
      requires before == NO_RESULT
      ensures (status, result) == Populate(nodeCount, dataSectionSize, depth, value, netmask)
    {
      result := before;
      var offset := (value - nodeCount) % U32_RANGE;
      if offset > dataSectionSize {
        return CorruptSearchTree, result;
      }
      result := result.(netmask := (depth - netmask) % U16_RANGE, offset := offset, foundEntry := offset > 0);
      return Success, result;
    }

    /** find_address_in_search_tree. */
    method FindAddressInSearchTree(address: seq<byte>, family: Family) returns (status: Status, result: LookupResult)
      requires nodeCount > 0 && (KnownLength(recordLength) ==> CacheOk())
      requires depth == (if ipVersion == 6 then 128 else 32) && 8 * |address| == depth
      modifies this`ipv4StartNode
      ensures !KnownLength(recordLength) ==> status == UnknownDatabaseFormat && result == NO_RESULT
      ensures KnownLength(recordLength) ==> (status, result) == LookupSpec(address, family) && CacheOk()
    {
      hide BitOf, Fetch, FileWalk, FileStartFrom;
      result := NO_RESULT;
      if RightRecordOffset(recordLength) == 0 {
        return UnknownDatabaseFormat, result;
      }
      var value: nat := 0;
      var maxDepth0 := depth - 1;
      var startBit := maxDepth0;
      if ipVersion == 6 && family == INET {
        var start := FindIpv4StartNode();
        if start.NoStart? {
          return Undefined, result;
        }
        if start.s.nodeValue >= nodeCount {
          status, result := PopulateResult(start.s.nodeValue, start.s.netmask, result);
          return;
        }
        value := start.s.nodeValue;
        startBit := startBit - start.s.netmask;
      }
      status, result := Descend(address, value, startBit);
    }

    /** The loop of find_address_in_search_tree, from node `from` with `startBit` the next bit to look at. */
    method Descend(address: seq<byte>, from: nat, startBit: nat) returns (status: Status, result: LookupResult)
      requires KnownLength(recordLength) && depth <= 128 && 8 * |address| == depth && startBit < depth
      ensures (status, result) == AnswerAt(FileWalk(from, BitsOf(address), depth - 1 - startBit))
    {
      hide BitOf, Fetch;
      result := NO_RESULT;
      ghost var bits := BitsOf(address);
      var maxDepth0 := depth - 1;
      var value: nat := from;
      var currentBit: int := startBit;
      while currentBit >= 0
        invariant -1 <= currentBit <= maxDepth0
        invariant FileWalk(value, bits, maxDepth0 - currentBit) == FileWalk(from, bits, maxDepth0 - startBit)
      {
        var bitIsTrue := BitOf(address, maxDepth0 - currentBit);
        var fetched := Fetch(value, bitIsTrue);
        if fetched.OutsideFile? {
          return Undefined, result;
        }
        value := fetched.record;
        if value == 0 {
          return CorruptSearchTree, result;
        }
        if value >= nodeCount {
          status, result := PopulateResult(value, currentBit, result);
          return;
        }
        currentBit := currentBit - 1;
      }
      return CorruptSearchTree, result;
    }

    /** MMDB_lookup_sockaddr.  An IPv6 address in an IPv4 database yields the empty result with no error written. */
    method LookupSockaddr(r: Request) returns (result: LookupResult, error: Error)
      requires GoodRequest(r) && Known() && CacheOk() && Open()
      modifies this`ipv4StartNode
      ensures (result, error) == SockaddrSpec(r) && CacheOk()
    {
      var address := r.address;
      if ipVersion == 4 {
        if r.family == INET6 {
          return NO_RESULT, NotWritten;
        }
      } else if r.family == INET {
        address := TWELVE_ZEROS + address;
      }
      var status;
      status, result := FindAddressInSearchTree(address, r.family);
      error := Written(status);
    }

    predicate Open() {
      ipVersion in {4, 6} && depth == if ipVersion == 6 then 128 else 32
    }

    function SockaddrSpec(r: Request): (LookupResult, Error)
      requires GoodRequest(r) && Known() && Open()
    {
      if ipVersion == 4 && r.family == INET6 then (NO_RESULT, NotWritten)
      else
        var address := if ipVersion == 6 && r.family == INET then TWELVE_ZEROS + r.address else r.address;
        var (status, result) := LookupSpec(address, r.family);
        (result, Written(status))
    }

    /** A lookup in a database of its own address family, as the specification describes it: the nodes visited, each
        left by the binary digit of the address at that place, the record where the search ends, and the answer it
        gives. */
    lemma LookupFollowsSearch(r: Request) returns (path: seq<nat>, record: nat)
      requires GoodRequest(r) && TreeFits() && Open() && r.family == if ipVersion == 4 then INET else INET6
      ensures 0 < |path| <= depth && path[0] == 0
      ensures forall i | 0 <= i < |path| ::
                && path[i] < nodeCount && (i > 0 ==> path[i] != 0)
                && (if i + 1 < |path| then path[i + 1] else record) ==
                   if BigEndian(r.address) / Pow2(depth - 1 - i) % 2 == 1
                   then Nodes()[path[i]].right else Nodes()[path[i]].left
      ensures record == 0 || record >= nodeCount || |path| == depth
      ensures SockaddrSpec(r) ==
                if record < nodeCount || record - nodeCount > dataSectionSize
                then (LookupResult(false, 0, 0), Written(CorruptSearchTree))
                else (LookupResult(record > nodeCount, record - nodeCount, |path|), Written(Success))
    {
      hide BitsOf, Nodes, BigEndian, LookupSpec, VisitAt;
      var bits := BitsOf(r.address);
      LooksUpInTree(r.address, r.family);
      path, record := SearchPath(Nodes(), 0, bits);
      forall i | 0 <= i < |path|
        ensures && path[i] < nodeCount && (i > 0 ==> path[i] != 0)
                && (if i + 1 < |path| then path[i + 1] else record) ==
                   if BigEndian(r.address) / Pow2(depth - 1 - i) % 2 == 1
                   then Nodes()[path[i]].right else Nodes()[path[i]].left
      {
        VisitByNumber(r.address, path, record, i);
      }
      VisitByNumber(r.address, path, record, |path| - 1);
      RecordBound(path[|path| - 1]);
      if record >= nodeCount {
        Small(record - nodeCount, U32_RANGE);
      }
    }

    lemma VisitByNumber(address: seq<byte>, path: seq<nat>, record: nat, i: nat)
      requires TreeFits() && 8 * |address| == depth && i < |path| <= depth
      requires VisitAt(Nodes(), BitsOf(address), path, record, i)
      ensures path[i] < nodeCount && (i > 0 ==> path[i] != 0)
      ensures (if i + 1 < |path| then path[i + 1] else record) ==
                if BigEndian(address) / Pow2(depth - 1 - i) % 2 == 1
                then Nodes()[path[i]].right else Nodes()[path[i]].left
    {
      hide BitsOf, Nodes, BigEndian;
      BitIsDigit(address, i);
    }

    lemma RecordBound(n: nat)
      requires TreeFits() && n < nodeCount
      ensures Nodes()[n].left < U32_RANGE && Nodes()[n].right < U32_RANGE
    {
      ReadsStayInTree(n);
      RecordsFit(file, recordLength, n * recordLength);
    }

    /** Which tree and bits a lookup uses, by address family, and when it writes no error. */
    lemma SockaddrByFamily(r: Request)
      requires GoodRequest(r) && TreeFits() && Open()
      ensures (ipVersion == 4 && r.family == INET) || (ipVersion == 6 && r.family == INET6) ==>
                var (status, result) := Lookup(Nodes(), dataSectionSize, BitsOf(r.address));
                SockaddrSpec(r) == (result, Written(status))
      ensures ipVersion == 6 && r.family == INET ==>
                var bits := BitsOf([0, 0, 0, 0, 0, 0, 0, 0, 0, 0, 0, 0] + r.address);
                var (status, result) := LookupFrom(Nodes(), dataSectionSize, FreshStart(Nodes()), bits);
                SockaddrSpec(r) == (result, Written(status))
      ensures SockaddrSpec(r).1 == NotWritten <==> ipVersion == 4 && r.family == INET6
      ensures SockaddrSpec(r).1 == NotWritten ==> SockaddrSpec(r).0 == LookupResult(false, 0, 0)
    {
      hide BitsOf, Nodes, LookupSpec;
      if ipVersion == 6 && r.family == INET {
        LooksUpInTree(TWELVE_ZEROS + r.address, INET);
      } else if !(ipVersion == 4 && r.family == INET6) {
        LooksUpInTree(r.address, r.family);
      }
    }

    /** An IPv4 database of one node, with data for 128.0.0.0/1 only. */
    lemma OneNodeLookups()
      requires TreeFits() && Open() && ipVersion == 4 && Nodes() == [Node(1, 17)] && dataSectionSize >= 16
      ensures SockaddrSpec(Request(INET, [128, 0, 0, 0])) == (LookupResult(true, 16, 1), Written(Success))
      ensures SockaddrSpec(Request(INET, [127, 255, 255, 255])) == (LookupResult(false, 0, 1), Written(Success))
    {
      hide BitsOf, Nodes, LookupSpec;
      assert |Nodes()| == 1 == nodeCount;
      SockaddrByFamily(Request(INET, [128, 0, 0, 0]));
      SockaddrByFamily(Request(INET, [127, 255, 255, 255]));
      BitsOfByte([128, 0, 0, 0], 0);
      BitsOfByte([127, 255, 255, 255], 0);
    }

    /** Any history of lookups: each result is the one its request alone determines, and the cache stays sound. */
    method LookupMany(requests: seq<Request>) returns (answers: seq<(LookupResult, Error)>)
      requires Known() && CacheOk() && Open() && forall r | r in requests :: GoodRequest(r)
      modifies this`ipv4StartNode
      ensures |answers| == |requests| && CacheOk()
      ensures forall i | 0 <= i < |requests| :: answers[i] == SockaddrSpec(requests[i])
    {
      answers := [];
      for i := 0 to |requests|
        invariant |answers| == i && CacheOk()
        invariant forall j | 0 <= j < i :: answers[j] == SockaddrSpec(requests[j])
      {
        var result, error := LookupSockaddr(requests[i]);
        answers := answers + [(result, error)];
      }
    }

    /** An AF_INET lookup in an IPv6 database answers as the descent of ::a.b.c.d from the root, netmask included,
        whenever no left record on the way is zero and the start node is a node of the tree. */
    lemma SockaddrRefinesDescent(r: Request)
      requires GoodRequest(r) && TreeFits() && Open() && ipVersion == 6 && r.family == INET
      requires NoZeroOnLeft(Nodes(), 0, 0)
      ensures var (result, error) := SockaddrSpec(r);
              var (result', error') := SockaddrSpec(Request(INET6, TWELVE_ZEROS + r.address));
              && error == error' && result.foundEntry == result'.foundEntry && result.offset == result'.offset
              && (FreshStart(Nodes()).nodeValue < nodeCount && error == Written(Success) ==> result == result')
    {
      hide LookupSpec, Nodes;
      MappedAddress(r.address);
      LooksUpInTree(TWELVE_ZEROS + r.address, INET);
      LooksUpInTree(TWELVE_ZEROS + r.address, INET6);
      ShortcutRefinesDescent(Nodes(), dataSectionSize, BitsOf(TWELVE_ZEROS + r.address));
    }

    /** MMDB_read_node.  The node number equal to the node count is let through: what it reads lies after the tree. */
    method ReadNode(n: nat) returns (status: Status, node: Node)
      ensures !KnownLength(recordLength) ==> status == UnknownDatabaseFormat
      ensures KnownLength(recordLength) && n > nodeCount ==> status == InvalidNodeNumber
      ensures KnownLength(recordLength) && n <= nodeCount ==>
                var left, right := Fetch(n, false), Fetch(n, true);
                if left.OutsideFile? || right.OutsideFile? then status == Undefined
                else status == Success && node == Node(left.record, right.record)
      ensures TreeFits() && n < nodeCount ==> status == Success && node == Nodes()[n]
      ensures TreeFits() && n == nodeCount && 8 <= |DataSection()| ==>
                status == Success && node == NodeAt(DataSection(), recordLength, 0)
    {
      hide LeftRecord, RightRecord, Nodes;
      node := Node(0, 0);
      if RightRecordOffset(recordLength) == 0 {
        return UnknownDatabaseFormat, node;
      }
      if n > nodeCount {
        return InvalidNodeNumber, node;
      }
      if TreeFits() && n < nodeCount {
        FetchesNode(n, false);
        FetchesNode(n, true);
      } else if TreeFits() && 8 <= |DataSection()| {
        FetchesAfterTree();
      }
      var left, right := Fetch(n, false), Fetch(n, true);
      if left.OutsideFile? || right.OutsideFile? {
        return Undefined, node;
      }
      return Success, Node(left.record, right.record);
    }

    lemma FetchesAfterTree()
      requires TreeFits() && recordLength <= |DataSection()|
      ensures var node := NodeAt(DataSection(), recordLength, 0);
              Fetch(nodeCount, false) == Fetched(node.left) && Fetch(nodeCount, true) == Fetched(node.right)
    {
      hide LeftRecord, RightRecord;
      Small(nodeCount * recordLength, U32_RANGE);
      AfterTree();
    }

    lemma AfterTree()
      requires TreeFits() && nodeCount * recordLength + recordLength <= |file|
      ensures recordLength <= |DataSection()|
      ensures NodeAt(file, recordLength, nodeCount * recordLength) == NodeAt(DataSection(), recordLength, 0)
    {
      var at := nodeCount * recordLength;
      NodeOfBytes(file, recordLength, at, DataSection()[..recordLength]);
      NodeOfBytes(DataSection(), recordLength, 0, DataSection()[..recordLength]);
    }

    /** A file that begins with packed nodes holds exactly those nodes. */
    lemma PackedFile(t: Tree, rest: seq<byte>)
      requires t != [] && |t| == nodeCount && KnownLength(recordLength)
      requires (forall n | n in t :: NodeFits(recordLength, n)) && nodeCount * recordLength < U32_RANGE
      requires file == PackAll(recordLength, t) + rest
      ensures TreeFits() && Nodes() == t && DataSection() == rest
    {
      hide PackAll, Pack, NodeAt, NodeFits, KnownLength;
      PackAllSlice(recordLength, t, 0);
      forall n | 0 <= n < nodeCount ensures Nodes()[n] == t[n] {
        PackedNode(file, recordLength, t, rest, n, n * recordLength);
      }
    }
  }
}
