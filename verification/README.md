# kubebpfbox: a verified model of the traffic path

kubebpfbox watches the HTTP traffic of a Kubernetes node. An eBPF socket filter pairs requests with responses
packet by packet; a Go agent decodes the pairs, labels them with the pod that served them, folds them into
per-pod rate/errors/duration figures, and writes everything to InfluxDB. This project models that path in Dafny
and proves what it does over whole packet traces, informer runs and goroutine interleavings.

| file | models |
|---|---|
| `Wire.dfy` | fixed-width values, byte order of memory and wire, the packet-load helper, trimming of NULs |
| `UrlLoader.dfy` | the request-target loader that fills the URL field chunk by chunk |
| `Matcher.dfy` | one packet as one step: headers, classification, the request map, the ring; class `SocketFilter` |
| `MatcherTraces.dfy` | runs of the matcher: pairing, conservation, independence; and the documented queue design |
| `Decode.dfy` | the record layout, decoding into a traffic metric, and the end-to-end statement |
| `TrafficTraces.dfy` | whole packet sequences, from their bytes to the decoded metrics |
| `EndpointIndex.dfy` | classes `Endpoint2Pod` and `HttpEbpf`: the provider index and the IP filter it notifies |
| `EndpointRuns.dfy` | runs of informer events against the live Endpoints objects |
| `FilterKeys.dfy` | the same runs with the keys that user space really computes |
| `RedWindow.dfy` | class `Gatherer`: the per-pod window and its ticks |
| `TrafficFigures.dfy` | whole packet sequences, on to the figures reported of each pod |
| `Influx.dfy` | class `Influxdb`: the write buffer over its backing array |
| `Pipeline.dfy` | plugins, channel, consumer, mutex and committer as a state machine |
| `PodCache.dfy` | class `Pid2Pod`: the node's pods by UID; the cgroup line pattern |
| `Bitfield.dfy`, `ByteOrder.dfy` | the bitfield and byte-swap macros, and the address conversions of the agent |

What the proofs found the code to do, where that differs from what one expects of it:

- The URL loader advances 12 bytes for every 16 it loads, so a target of 16 bytes or more is in general reported
  with repeated bytes, and a payload that ends within 16 bytes of the start of its target is reported with an
  empty URL. `UrlExact` gives the exact condition for every packet; `FullStrideIsPrefix` shows what a 16-byte
  stride would give.
- docs/http.md:25 describes a queue per connection; the code keeps one request per connection. `FifoRefinement`
  shows they agree exactly on the traces without pipelining (section 9.3.2 of RFC 9112).
- Deleting an Endpoints object removes endpoints that another live object still has (`AgreementThroughout`,
  `SharedEndpointIsLost`), and filter keys that another indexed endpoint still has, even when the objects share
  only an IP and the index stays right (`FilterThroughout`, `SharedIpIsLost`).
- If a write of the initial filter fails, the program stays attached but unregistered, and the keys written so
  far stay in the filter whatever happens to their endpoints (`FilterCoveredExact`, `FailedStartLeavesKey`).
- `net.ParseIP` returns an IPv4 address in 16 bytes whose first four are zero, so user space computes the key 0
  for every IPv4 address (`MappedKeyIsZero`). The filter never holds anything else (`FilterIsZero`), no packet
  with a nonzero address is skipped (`NoPacketIsSkipped`), and one deletion empties the filter
  (`DeletionEmptiesFilter`).
- A pod update that moves a pod off the node leaves its cache entry behind (`NodeViewExact`).

Assumptions: a packet load succeeds exactly when its range lies in the packet, and otherwise zeroes its
destination (the classifier does not check the result); one packet is processed at a time; timestamps, failed
map writes and failed commits are inputs of the steps; the initial write of the filter and the registration
happen with no informer event between them, and the endpoint index, which goroutines share without a lock, is
read and changed one event at a time; integers of the Go side do not overflow; floating-point figures are real
numbers.

## Model

| member | source | states |
|---|---|---|
| UrlLoader.LoadUrlToMap | ebpf/http/http.c:154-191 | for every packet and offset the loop leaves the URL field of the packet, byte by byte, and stays inside its 256 bytes |
| UrlLoader.UrlOnTheWire | ebpf/http/http.c:154-191 | that field on the packet itself: byte 16i+j is the packet's byte at offset+12i+j if chunk i lies in the packet and no byte 32 or 63 comes in the chunks before or up to there, zero otherwise |
| UrlLoader.UrlBufferAt | ebpf/http/http.c:154-191 | every byte of the buffer in closed form: byte 12i+j of the target at position 16i+j while chunk i loads and no earlier chunk holds the end, zero otherwise |
| UrlLoader.ChunksAt | ebpf/http/http.c:158-189 | the chunk-by-chunk loading agrees with the closed form, for the 12-byte stride of the code and for a 16-byte stride |
| UrlLoader.RecoveredIsPrefix | ebpf/http/http.c:163-178 | dropping the first four bytes of every later chunk gives back the contiguous target up to its end or the last byte loaded |
| UrlLoader.FullStrideIsPrefix | ebpf/http/http.c:178 | a 16-byte stride would leave the plain target as far as whole chunks fit |
| UrlLoader.UrlExact | ebpf/http/http.c:154-191 | for every packet, exactly when the decoded URL is the target up to its first byte 32 or 63, cut at 256 bytes: it does not end in NUL, and either its end and the first load lie within the first chunk, or the loads run out with the target, its tail repeats with period four and the overlap leaves only NULs after it |
| UrlLoader.UrlExactNoNul | ebpf/http/http.c:154-191 | for a target without NULs the second case means that whole chunks end exactly with it |
| UrlLoader.UrlFailures | ebpf/http/http.c:163-182 | where the last byte of a terminated target comes out otherwise, so by how much the URL is too long, and that a short payload gives an empty one |
| Matcher.SocketFilter.FilterHttp | ebpf/http/http.c:218-329 | each packet moves map and ring by the step function applied to its classification; return code of every branch |
| Matcher.SocketFilter.UpdateElem | ebpf/http/http.c:69-75 | the bounded map takes a new key only below 16384 entries, an old key always |
| MatcherTraces.PendingExact | ebpf/http/http.c:288-322 | the map holds exactly the requests that were stored last on their key and have no response after them |
| MatcherTraces.MatchingExact | ebpf/http/http.c:263-322 | every run has a one-to-one pairing of emitted records with a stored request and a later response of the mirrored connection, nothing on that connection between them, fields taken from the right one of the two; every such pair is emitted, in response order |
| MatcherTraces.Conservation | ebpf/http/http.c:294-322 | per connection: stores = matched + overwritten + pending, matches bounded by requests and by responses |
| MatcherTraces.TotalConservation | ebpf/http/http.c:9-75 | the same in total, and the map never exceeds 16384 entries |
| MatcherTraces.RoomForAll | ebpf/http/http.c:69-75 | no store fails while the trace has at most 16384 connections |
| MatcherTraces.Independence | ebpf/http/http.c:268-322 | what is emitted and kept for a connection is what its own packets alone would give |
| MatcherTraces.SwapExact | ebpf/http/http.c:268-322 | neighbouring packets of different connections leave the same map in either order exactly when neither decides whether the map has room for the other |
| MatcherTraces.SwapNeighbours | ebpf/http/http.c:268-322 | swapping them in the middle of any trace changes neither the final map nor what is ever emitted on any connection |
| MatcherTraces.SwapWithRoom | ebpf/http/http.c:268-322 | the same for any two such neighbours while the map has two free entries |
| FifoMatcher.FifoRefinement | docs/http.md:19-25 | single slot and documented queue emit the same records in the same order, on a trace and all its completions by responses, if and only if the trace is not pipelined |
| FifoMatcher.PipeliningOverwrites | ebpf/http/http.c:294 | a trace is pipelined exactly when some store replaces a pending request |
| FifoMatcher.QueueConservation | docs/http.md:25 | the queue loses nothing, and is not empty while the slot is occupied |
| FifoMatcher.PipelinedExample | docs/http.md:21 | for any two pipelined requests the slot pairs the first response with the second request |
| Decode.RoundTrip | plugins/http/http_bpfel_x86.go:22-37 | a record lies in memory at the structure's offsets, padding included, and reading it back is the identity |
| Decode.IsHttpRequestExact | ebpf/http/http.c:88-151 | the classifier returns a method's number exactly for payloads that start with its name, the length table measures that name and user space reports it, and no payload is both request and response |
| Decode.HeadersOnTheWire | ebpf/http/http.c:236-248 | addresses, ports, lengths and header sizes as the header bytes of the packet, zeros where a header is cut short |
| Decode.DurationExact | ebpf/http/http.c:276-312 | truncated start and wide subtraction give the difference modulo 2^32, the true latency exactly below 2^32 ns |
| Decode.ClassifyExact | ebpf/http/http.c:218-288 | exactly which packets are requests and which are responses, by their bytes: IPv4, TCP, not both addresses filtered, and at least 12 bytes of payload beginning with a method name or `HTTP` |
| Decode.MirrorOnTheWire | ebpf/http/http.c:288-314 | a response's status is bytes 9 to 11 of its payload, its size is that of its headers, and it is looked up under a request's key exactly when the addresses and ports of the two packets are each other's, exchanged |
| Decode.PayloadSizeExact | ebpf/http/http.c:282-313 | the reported size is total length less both headers, wrapped around 2^32 when that is negative |
| Decode.RequestOnTheWire | ebpf/http/http.c:257-291 | every field of a request's record from the bytes of its packet: kind, method, addresses, ports, start time, payload size, and the URL field after method and space |
| Decode.EndToEnd | plugins/http/ebpf.go:222-302 | completion, record layout and decoding of a request: the metric's addresses, ports, method, URL, code and duration in terms of the packet's own bytes; a metric exists exactly when the endpoint that names the destination is indexed |
| Decode.Exchange | ebpf/http/http.c:218-325 | from any matcher state that takes the request, it and its mirrored response add one record to the ring, whose decoded metric is that of the two packets' bytes |
| TrafficTraces.FramesReported | ebpf/http/http.c:218-325 | for every sequence of packets, the ring's records are paired one to one, in order and without omission, with a request packet and a later mirrored response packet; each record has the payload sizes of the two and decodes to exactly their report |
| AddressOrder.IpRoundTripReverses | plugins/http/ebpf.go:265-273 | `intToIP` after `ipv4ToUint32` reverses the four bytes; twice is the identity |
| AddressOrder.DottedExact | plugins/http/ebpf.go:225-227 | the reported address is the one string whose parts between dots are the four bytes in decimal, in order and without leading zeros |
| AddressOrder.FilterKeyExact | plugins/http/ebpf.go:265-267 | on a four-byte slice, the big-endian number and the number the bytes are in little-endian memory agree exactly when the slice reads the same backwards |
| AddressOrder.MappedKeyIsZero | plugins/http/ebpf.go:149-157 | on the 16 bytes that `net.ParseIP` gives for an IPv4 address the key is 0, which is the kernel's key of 0.0.0.0 only |
| FilterKeys.FilterIsZero | plugins/http/ebpf.go:149-187 | after every run over IPv4 endpoints, failed writes included, the filter holds no key but 0 |
| FilterKeys.NoPacketIsSkipped | ebpf/http/http.c:205-254 | so every packet with a nonzero address is classified as if there were no filter |
| FilterKeys.DeletionEmptiesFilter | plugins/http/ebpf.go:160-167 | and deleting one object with an endpoint on the node empties the filter, which is right exactly when nothing stays indexed |
| EndpointIndex.Endpoint2Pod.AddEndpoints | internal/endpoint2pod/endpoint2pod.go:53-75 | the nested loops put the object's flattened entries one by one, notifying the filter after each |
| EndpointIndex.Endpoint2Pod.DeleteEndpoints | internal/endpoint2pod/endpoint2pod.go:78-98 | likewise for deletion |
| EndpointIndex.Endpoint2Pod.UpdateEndpoints | internal/endpoint2pod/endpoint2pod.go:101-141 | deletes every old entry, then puts every new one |
| EndpointIndex.EntriesExact | internal/endpoint2pod/endpoint2pod.go:53-64 | which entries those are: exactly one for each port of each address on this node in each subset, in that order, with the address's IP, target and namespace, the node and the object's name |
| EndpointIndex.Endpoint2Pod.GetPodByEndpoint | internal/endpoint2pod/endpoint2pod.go:45-50 | finds exactly the indexed endpoints |
| EndpointIndex.Endpoint2Pod.Start | plugins/http/ebpf.go:79-87 | the initial write in some order, up to its first failure, and the registration only if there is none; the whole new state either way |
| EndpointIndex.HttpEbpf.WriteFilterIP | plugins/http/ebpf.go:176-187 | the loop over the providers, in an order of its own, is the write of that order up to the first failure |
| EndpointIndex.WriteAllExact | plugins/http/ebpf.go:176-187 | whatever the order, it succeeds exactly when no write fails and the keys fit into 300 entries, and then adds all keys; otherwise some of them |
| EndpointIndex.WriteAllStops | plugins/http/ebpf.go:178-182 | a failed write is the last one, and exactly the keys before it are in the filter |
| EndpointIndex.HttpEbpf.DeleteFilterIP | plugins/http/ebpf.go:160-167 | the key is gone, and the result says whether it was there |
| EndpointRuns.IndexSound | internal/endpoint2pod/endpoint2pod.go:53-141 | after every run each indexed provider was built from an address on this node and a port of an object live now, whatever objects share |
| EndpointRuns.AgreementExact | internal/endpoint2pod/endpoint2pod.go:53-141 | exactly which informer events keep the index's endpoints equal to the live ones |
| EndpointRuns.AgreementThroughout | internal/endpoint2pod/endpoint2pod.go:53-141 | over whole runs: they are equal after every event if and only if no event takes away an endpoint that a live object still has |
| EndpointRuns.SharedEndpointIsLost | internal/endpoint2pod/endpoint2pod.go:83 | two objects with one endpoint, one deleted: the endpoint is lost |
| EndpointRuns.FromScratchExact | internal/endpoint2pod/endpoint2pod.go:53-64 | one object alone maps each endpoint to the provider of the last address and port that have it |
| EndpointRuns.IndexComplete | internal/endpoint2pod/endpoint2pod.go:53-141 | while live objects share no endpoint, the index maps an endpoint to a provider if and only if that is the last of its kind in a live object |
| EndpointRuns.ResyncChangesNothing | internal/endpoint2pod/endpoint2pod.go:101-141 | updating an object to itself changes neither the live objects nor the index |
| EndpointRuns.ResyncFilterExact | internal/endpoint2pod/endpoint2pod.go:101-141 | and leaves the filter as it was exactly when, for each of the object's keys, one of its writes succeeds |
| EndpointRuns.FilterCovered | plugins/http/ebpf.go:150-167 | after every loop iteration of every run whose start did not fail, later failed writes included, each filter key belongs to an indexed endpoint |
| EndpointRuns.FilterCoveredExact | plugins/http/ebpf.go:79-187 | over all runs, failed starts included: that holds after every event if and only if no event after a failed start takes the last endpoint of a key the start had written |
| EndpointRuns.FailedStartIsFinal | plugins/http/ebpf.go:79-87 | after a failed start nothing touches the filter any more |
| EndpointRuns.FailedStartLeavesKey | plugins/http/ebpf.go:176-187 | an object with two endpoints, the second initial write fails, the object is deleted: the first key stays in the filter of an empty index |
| EndpointRuns.FilterExact | plugins/http/ebpf.go:150-167 | exactly when deleting and putting entries keeps the filter equal to the indexed keys |
| EndpointRuns.FilterThroughout | plugins/http/ebpf.go:79-187 | over whole runs, with no failing write and at most 300 keys: the filter is the indexed keys after every event if and only if no event deletes a key that an endpoint still has |
| EndpointRuns.SharedIpIsLost | plugins/http/ebpf.go:160-167 | two objects with different ports of one IP, one deleted: the index is right, the live IP is gone from the filter |
| EndpointRuns.FilterIsLiveIps | plugins/http/ebpf.go:150-187 | with no shared key and at most 300 live ones, the filter is the live keys after every event |
| RedWindow.Gatherer.OnTraffic | plugins/http/http.go:42-65 | one message extends the window and the channel; the map is the declarative fold of the window |
| RedWindow.Gatherer.OnTick | plugins/http/http.go:66-74 | one report per pod of the window, in any order, and an empty map; from the window's messages, errRate times the count is 100 times the errors, qps times 60 is the count, duration times the count is the sum, with the labels of the pod's first message |
| RedWindow.CountsExact | plugins/http/http.go:42-62 | a pod's tally is the number of its messages, the number of those with a code above 499, and the sum of their durations without fractions |
| RedWindow.ReportsTally | plugins/http/http.go:66-74 | a tick moves each pod's counts from the window into the reports, so reports plus open window account for every message |
| RedWindow.GatherAccounts | plugins/http/http.go:38-76 | over every run, with ticks anywhere between the messages, a pod's reported tally plus its open window is the tally of its messages |
| TrafficFigures.PodFigures | plugins/http/http.go:38-76 | for every sequence of packets, whatever is indexed at each decode and wherever the ticks fall: a pod's reported requests, errors and milliseconds plus its open window are those of the packet exchanges to its endpoints, computed from the bytes and times of the paired packets |
| RedWindow.CountsPositive | plugins/http/http.go:48-62 | a reported pod has at least one message and no more errors than messages |
| RedWindow.ReportBounds | plugins/http/http.go:68-70 | no division by zero, error rate between 0 and 100, reported duration below the true mean by less than one |
| RedWindow.DurationBound | plugins/http/http.go:51 | with every duration below 4295 ms, the sum stays within 4294 per request |
| TrafficFigures.WindowDurationBound | plugins/http/http.go:51 | decoding keeps every duration below 4295 ms, so the bound holds in every window of every run |
| RedWindow.IsErrOfStatus | plugins/http/http.go:43-47 | on any three characters, an error is three digits from 500 up |
| Influx.Influxdb.Write | internal/influxdb/influxdb.go:38-50 | appends one point, in place or in a larger array |
| Influx.Influxdb.Commit | internal/influxdb/influxdb.go:66-79 | sends exactly the points written since the last stored batch, never a stale one; keeps them on failure; stored batches and live points are what was written |
| Pipeline.InvStep | main.go:118-138 | what every step of every goroutine keeps |
| Pipeline.PipelineConserves | main.go:118-138 | over every interleaving: accepted items = stored batches, then live points, then the held item, then the channel, in order, in all and per plugin; at most 1000 in the channel |
| Pipeline.OffersConserved | main.go:118-127 | per plugin, the metrics it came up with are those the channel accepted from it, in order, then the one it waits with |
| Pipeline.CommitExact | internal/influxdb/influxdb.go:66-79 | a successful commit stores everything written so far and empties the buffer, a failed one changes neither |
| Pipeline.TicksCommitted | internal/influxdb/influxdb.go:53-63 | one attempt to commit for every tick, but for the one under way |
| Pipeline.StopIsFinal | main.go:134-137 | after the stop signal main writes nothing any more |
| Pipeline.NeverStuck | internal/influxdb/influxdb.go:38-63 | before the stop signal, some goroutine can move unless there is nothing to do, and a send waits only while the channel holds 1000 |
| Pipeline.InternalStepsProgress | main.go:129-138 | every such move is one step of progress |
| Pipeline.Drains | main.go:129-138 | any internal schedule ends, after a number of steps known in advance, with everything sent also written |
| PodCache.NodeViewExact | internal/pid2pod/pid2pod.go:72-97 | exactly which events keep the cache equal to the live pods of this node |
| PodCache.StaleEntry | internal/pid2pod/pid2pod.go:90-97 | moving a pod away or changing its UID leaves a dead entry |
| PodCache.CacheIsNodeView | internal/pid2pod/pid2pod.go:72-97 | over every run with stable UIDs and node names the cache is the live pods of this node |
| PodCache.LookupIdByPid | internal/pid2pod/pid2pod.go:111-128 | the identifiers of the first matching line, none if no line matches |
| PodCache.MatchExact | internal/pid2pod/pid2pod.go:106-109 | exactly which lines match, by the text of the pattern spelled out, and that the identifiers are those of the last place that does |
| PodCache.RenderRoundTrip | internal/pid2pod/pid2pod.go:106-109 | a line rendered from a pod and a container identifier matches and gives both back |
| Bitfield.WriteBitfield | ebpf/include/bpf_core_read.h:118-144 | a write through the pointer puts the value's low bits at the field's place in memory and changes no other bit |
| Bitfield.ReadAfterWrite | ebpf/include/bpf_core_read.h:88-144 | reading after writing gives the value cut to the field's width, sign-extended if signed |
| Bitfield.WriteAfterRead | ebpf/include/bpf_core_read.h:114-144 | writing back what was read changes nothing |
| Bitfield.OtherFieldsUnchanged | ebpf/include/bpf_core_read.h:135-136 | a write is invisible to fields it does not overlap |
| Bitfield.DisjointWritesCommute | ebpf/include/bpf_core_read.h:135-136 | writes to fields that do not overlap commute |
| ByteOrder.SwabInvolutive | ebpf/include/bpf_endian.h:13-33 | the swap macros are their own inverses, the promoted 16-bit one included |
| ByteOrder.SwabIsGo | plugins/http/ebpf.go:276-302 | the macros agree with `Htons`, `Ntohs`, `Htonl` and `Ntohl` on the little-endian host |
| ByteOrder.SwabReversesBytes | ebpf/include/bpf_endian.h:15-23 | the macros reverse the bytes of memory |
| ByteOrder.Swab64ReversesBytes | ebpf/include/bpf_endian.h:25-33 | and so does the 64-bit one: the halves change places, each reversed |

## Left out

- Loading, attaching, raw sockets, the ring-buffer reader and shutdown: kernel and library calls. Ring output is taken to succeed.
- Two packets inside the matcher at once on different CPUs: the code takes no lock; a packet is one atomic step here.
- What the filter test is for: a packet is skipped when both its addresses are in the filter, which differs from docs/http.md:36; the model follows the code.
- IP options: the TCP header is read at a fixed offset, and the model does the same; the fields reported for such packets are those bytes, not the TCP header's.
- `net.ParseIP` itself: `FilterKeys.dfy` uses that it gives a dotted IPv4 address in its 16-byte form; the other index and filter results hold for any function from IP strings to keys.
- FilterKeys.FilterIsZero: does not cover IPv6 endpoints, whose key is the first four bytes of the address, nor strings that are no address, on which the conversion panics.
- Several registered handlers per event: the repository registers one plugin, and the model has that one.
- Repeated loops: the inner loops of `addEndpoints` and `deleteEndpoints` are methods of their own, and `updateEndpoints` calls them where the source repeats them.
- Addresses without a `TargetRef`, and tombstones in delete events: not part of the model.
- Metric tags and formatting, log lines.
- What the InfluxDB client does with the slice after a blocking write returns, and writes that fail after storing some points.
- Container names from pod status, and reading /proc: the lookup takes the lines as given.
- The OOM and TCP backlog probes and their readers, settings, logger, deployment files and the rest of the vendored headers.
