# A verified model of pithosctl

`pithosctl` deploys the Pithos object store on a Gravity cluster and watches the Cassandra ring under it. This
project models the two parts of it that decide something, and proves what they are for.

**The health decision.** `nodetool status` prints a table; every row is read with one regular expression into a map
from address to node (`Scanner`, `Pattern`, `NodetoolRow`, `Cassandra`), and `PrintedRow` says the same of rows and
tables written out character by character. The container states of every pod are folded
into a reason and a ready count (`Kubernetes`). A snapshot holds both (`Cluster`), and the verdict joins pods to nodes
and compares the loads of all pairs of nodes while ranging over a map in an order that is not specified (`Health`,
`Load`). `NodetoolTable` and `HealthProperties` say what a parsed table and a healthy verdict mean, and `Pipeline` puts
the two ends together: what must be true of the pods and of the printed text for the command to say "Healthy".
`HiddenFaults` says on which inputs the verdict misses a fault, with tables that `PrintedTable` prints.

**The S3 keys.** An install draws two keys (`Keys`), writes them to a ConfigMap and then, as base64, to a Secret
(`Base64`, `SecretData`, `Control`); an update reads the Secret and rebuilds the ConfigMap. The jobs are restarted when
they fail, so `Lifecycle` treats whole runs of attempts, each of which may be refused or stopped at any write, and
`InitApp` the steps of the install command around them.

`Seeds` (the Cassandra seed provider) and `Duration` (the age column of the status table) are two smaller pieces.

How it is written down:

- A text is a `string` with one character for each byte. A key string is a sequence of bytes.
- `strconv.ParseFloat`, `units.ParseStrictBytes`, name resolution and the remote `nodetool` call are parameters: any
  partial function. Everything is proved for all of them. A load is a natural number of bytes, which is what the parser
  gives below 2^63 bytes; its overflow test lets 2^63 itself through (`8EiB`), and that load is not part of the model.
- `kubectl create` is another program, and what is assumed of it is this: it tries every resource of a file, creates
  those that do not exist and are not refused, fails if any exists or is refused, and prints "already exists" exactly
  when a resource that is not refused exists.
- Ranging over a map takes its keys in an order that is not specified (`Enumeration`); results hold for every order.
- The comparison of two loads is written over the reals. The floating-point comparison of the original gives the same
  answer for loads below 2^52 bytes, and the alert formula, which multiplies a load by 100, for loads below 2^46 bytes.
- A call ends with a value, an error, or a run-time panic (`Outcome`): a row that does not match the expression has no
  fields to index.
- A foreign write succeeds, is refused, or takes effect although the caller is stopped or sees an error (`Call`).
- The install and update jobs are started again when they fail (resources/app.yaml:94, resources/app.yaml:143), and the
  update hook deletes the ConfigMap before it runs the update (images/hook/entrypoint.sh:19-23); both are events of a run.
- Methods follow the loops and early returns of the code and are proved equal to a function of their inputs or of the
  old state; the lemmas are about those functions.

Where the code and what is expected of it part ways, the model follows the code:

- The verdict looks nodes up from pods only and compares two counts. It covers all nodes if and only if no two pods
  share an address (`JoinCoversNodes`, `JoinSound`); otherwise a node that is down can go unseen, and only then
  (`HidesExactlyWhenShared`, `SharedIpHidesDownNode`). In the
  same way only the last of several rows with one address decides (`HealthyEndToEnd`).
- A pod that reports more container statuses than it has containers can be shown as fully ready although a container
  is not (`ExtraStatusHidesContainer`); otherwise the shown status is exact (`ShownHealthyIsAllUp`). So it is sound for
  pods with n containers and m statuses exactly when m <= n (`ShownStatusSound`), and so is the verdict of the whole
  command (`ReportSound`, `ExtraStatusReportedHealthy`).
- A line below the header that is not a row, such as a note under the table or the heading of a second one, is indexed
  like a row: the command panics exactly when such a line is the first that cannot be read (`PanicsAtUnmatchedRow`,
  `OtherLinePanics`).
- The load alert uses the smallest and largest load of all nodes, the verdict those above the threshold. The verdict
  is the alert formula on the loads above the threshold (`UnequalIsAlertOnHighLoads`), so the alert can fire alone
  (`AlertAlone` says exactly when).
- "Already exists" is looked for in the output of a whole file, so a retry can pass although part of the file is
  refused again (`RetryHidesRefusal`); a first attempt is exact (`FirstAttemptIsExact`), and `StepReliable` says in
  which states a step that passes can be relied on.
- Two generated names can be equal. Then the install still finishes, but its Secret holds no master key: the two
  objects disagree, and no update can repair them (`SuccessfulInstall`, `UpdateCannotRepair`).
- Between 364 and 365 days the age column shows `0y` (`ShownAgeGrows`).

## Model

| member | source | states |
|---|---|---|
| Pattern.MatchSound | internal/pithosctl/pkg/cassandra/cassandra.go:113-114 | Whatever the backtracking matcher returns is a way of cutting the line into parts that fit the pieces of the expression. |
| Pattern.MatchComplete | internal/pithosctl/pkg/cassandra/cassandra.go:113-114 | The matcher finds a match of every line that has one. |
| Pattern.PrefixDetermined | internal/pithosctl/pkg/cassandra/cassandra.go:113 | For any pattern: two ways of matching agree on the first n parts when each of them has a fixed length or is followed by a disjoint class. |
| NodetoolRow.RowUnambiguous | internal/pithosctl/pkg/cassandra/cassandra.go:113-128 | Any two ways of matching a row agree on status, state, address, load, unit, tokens, share and host id, with or without a unit column. |
| NodetoolRow.MatchRowCorrect | internal/pithosctl/pkg/cassandra/cassandra.go:113-116 | The matcher fails exactly on lines that cannot be matched, and on all others gives the fields of every way of matching them. |
| NodetoolRow.RowRoundTrip | internal/pithosctl/pkg/cassandra/cassandra.go:92-128 | Printing a well-formed row with any white space between the columns and matching it gives its fields back. |
| NodetoolRow.MatchIsRendering | internal/pithosctl/pkg/cassandra/cassandra.go:113 | Every line the expression accepts is such a printed row. |
| PrintedRow.LineMatches | internal/pithosctl/pkg/cassandra/cassandra.go:113-128 | Every line written as two capital letters, four dotted groups of one to three digits, a load of digits, dots and question marks, an optional unit of letters, a count, a share of digits and dots with a percent sign, a host id of digits, a to f and hyphens, and any rest, with white space between, is matched and its columns are captured. |
| PrintedRow.MatchedIsLine | internal/pithosctl/pkg/cassandra/cassandra.go:113 | No other line is matched. |
| PrintedRow.LineReads | internal/pithosctl/pkg/cassandra/cassandra.go:112-160 | Such a line becomes the node its columns describe: U and D, N, L, J and M are known letters, a load of one question mark is 0KiB and any other load the two columns joined; or it fails with its share if that is not a number. |
| Scanner.ScanUnlines | internal/pithosctl/pkg/cassandra/cassandra.go:69-73 | The lines of a text come back without their ends, each of which may be LF or CRLF, the last also the end of the text. |
| Scanner.CompleteWhenLinesFit | internal/pithosctl/pkg/cassandra/cassandra.go:105-107 | Whatever the line ends, the scan ends without an error exactly when every line fits the buffer of 65536 bytes. |
| Scanner.TextHasLines | internal/pithosctl/pkg/cassandra/cassandra.go:69-73 | Every text consists of lines with such ends, so this covers all texts. |
| Cassandra.GetStatus | internal/pithosctl/pkg/cassandra/cassandra.go:68-110 | The loop gives the map of the non-empty lines after the fifth, or ends the way the first bad row ends it, or fails on a line that is too long. |
| Cassandra.TableStops | internal/pithosctl/pkg/cassandra/cassandra.go:98-101 | The first row that cannot be read decides the outcome, whatever rows follow. |
| Cassandra.TableOutcome | internal/pithosctl/pkg/cassandra/cassandra.go:93-109 | The table is done exactly when every row can be read; otherwise it ends the way its first unread row does. |
| Cassandra.PanicsAtUnmatchedRow | internal/pithosctl/pkg/cassandra/cassandra.go:113-128 | For every text: the parser panics exactly when the first row that cannot be read does not match the expression. |
| Cassandra.TooLongFails | internal/pithosctl/pkg/cassandra/cassandra.go:105-107 | When every row can be read, the parse succeeds exactly when the scan reaches the end of the text, and otherwise fails with the scan. |
| NodetoolTable.TableSound | internal/pithosctl/pkg/cassandra/cassandra.go:98-109 | A successful parse has read every row, and maps each address to the last row that has it and nothing else. |
| NodetoolTable.TableComplete | internal/pithosctl/pkg/cassandra/cassandra.go:98-109 | If every row can be read, the parse succeeds with that map. |
| NodetoolTable.LastWinsUnique | internal/pithosctl/pkg/cassandra/cassandra.go:103 | "The last row of an address wins" determines the whole map. |
| NodetoolTable.TableRoundTrip | internal/pithosctl/pkg/cassandra/cassandra.go:68-129 | Printing records under five header lines, with any padding, blank lines anywhere and any line end on each line, and parsing the text gives the last-wins map of the records. |
| PrintedRow.PrintedTableReads | internal/pithosctl/pkg/cassandra/cassandra.go:68-129 | Five header lines of any contents and then such lines, with blank lines among them and any line ends, give a map with exactly the printed addresses, and for each of them the columns of its last line. |
| NodetoolTable.SurvivorsDecide | internal/pithosctl/pkg/cassandra/cassandra.go:103 | The rows that no later row replaces have distinct addresses and give the same map as all rows. |
| NodetoolTable.DistinctRecords | internal/pithosctl/pkg/cassandra/cassandra.go:103 | With distinct addresses that map is exactly the one from address to record. |
| NodetoolTable.CodesAreInitials | internal/pithosctl/pkg/cassandra/cassandra.go:138-160 | The letters of a row are the initials of the status and state it is given, as the legend of the table says; every other letter, and no other, is unknown. |
| NodetoolTable.LoadKeepsColumns | internal/pithosctl/pkg/cassandra/cassandra.go:131-136 | Two rows get the same load exactly when their load and unit columns are the same; a missing load is the same as 0 KiB. |
| Kubernetes.DeterminePodStatus | internal/pithosctl/pkg/kubernetes/status.go:48-110 | The init loop reports the first init container that did not exit 0, with the number that did before it, and no ready container; otherwise the last main container with a reason replaces that of the pod; deletion replaces both. |
| Kubernetes.DeletedShown | internal/pithosctl/pkg/kubernetes/status.go:103-107 | A pod being deleted is shown Unknown if its own reason is NodeLost, and Terminating otherwise. |
| Kubernetes.InitShown | internal/pithosctl/pkg/kubernetes/status.go:58-83 | The first init container that did not exit 0 decides: its reason of termination, else its signal, else its exit code; what it waits for, unless that is PodInitializing; or how many are done of those declared. Numbers read back; no container is ready. |
| Kubernetes.LiveShown | internal/pithosctl/pkg/kubernetes/status.go:52-99 | With the init containers done, the last main container that waits for something or has terminated decides in the same way; if there is none, the reason of the pod goes before its phase. |
| Kubernetes.ReadyShown | internal/pithosctl/pkg/kubernetes/status.go:84-100 | The number of ready containers is that of the containers that are ready and running and neither terminated nor waiting for something. |
| Kubernetes.DecimalRoundTrip | internal/pithosctl/pkg/kubernetes/status.go:67-79 | The numbers in a reason, negative ones too, are printed in decimal, without a leading zero, and can be read back. |
| Kubernetes.LastOverrideIsLast | internal/pithosctl/pkg/kubernetes/status.go:85-99 | The replacing reason is that of a main container after which no other has one, and is absent only when none has. |
| Kubernetes.ShownHealthyIsAllUp | internal/pithosctl/pkg/kubernetes/status.go:48-110 | A pod with no more statuses than containers is shown Running and fully ready exactly when it is not being deleted, every init container exited 0, every container is ready and running, and its own reason is Running. |
| Kubernetes.ExtraStatusHidesContainer | internal/pithosctl/pkg/kubernetes/status.go:84-99 | For every number of containers and every larger number of statuses there is a pod that is shown Running and fully ready although a container is not ready. |
| Kubernetes.ShownStatusSound | internal/pithosctl/pkg/kubernetes/status.go:48-110 | Among the pods with n containers and m statuses, every one that is shown Running and fully ready is so, if and only if m <= n. |
| Cluster.GetStatus | internal/pithosctl/pkg/cluster/status.go:30-73 | For each pod in order its name, node, address or the placeholder, shown state and containers, and the nodes as the first pod reports them; no pods, a failed command and a bad table each fail in their own way. |
| Load.IntegerTest | cmd/pithosctl/status.go:217-224 | Two loads are over the threshold exactly when the smaller is above it and they differ by more than a fifth of the larger; the test is symmetric. |
| Load.UnequalAtDefault | cmd/pithosctl/status.go:217-224 | At the default threshold some pair is unequal exactly when two loads above 1073741824 bytes differ by more than a fifth of the larger. |
| Load.AlertInteger | resources/alerts.yaml:13-23 | The alert formula holds exactly when the largest load is above 1073741824 bytes and exceeds the smallest by more than a fifth of itself. |
| Load.PairScanIsLinear | cmd/pithosctl/status.go:198-212 | Some pair of loads is over the threshold exactly when the largest and smallest load above the threshold are. |
| Load.UnequalIsAlertOnHighLoads | resources/alerts.yaml:13-23 | At the default threshold the pairwise check holds exactly when the alert formula holds of the loads above the threshold. |
| Load.UnequalRaisesAlert | resources/alerts.yaml:13-23 | Unequal loads always satisfy the alert formula; the two agree when all loads are above the threshold. |
| Load.AlertWithoutUnequal | resources/alerts.yaml:13-23 | The alert formula can hold although no pair of loads is unequal. |
| Load.AlertAlone | resources/alerts.yaml:13-23 | The alert formula holds without an unequal pair exactly when some load is above the threshold, the extremes of all loads are more than a fifth of the largest apart, and those of the loads above the threshold are not. |
| Health.IsClusterHealthy | cmd/pithosctl/status.go:160-215 | For every order in which the nodes are enumerated the verdict is the same order-free condition, and the reason is the first thing wrong: in the counts, the pods, then the pairs of nodes. |
| Health.ScanCoversAll | cmd/pithosctl/status.go:198-212 | With two nodes or more, a scan that finds nothing has parsed every load and compared every two. |
| HealthProperties.ReasonDetermined | cmd/pithosctl/status.go:160-215 | There is only one reason that fits the contract for a given order. |
| HealthProperties.ReasonOfPods | cmd/pithosctl/status.go:163-192 | The reason for too few pods, for another number of nodes, and for the first pod at fault: its state, its missing containers, its missing node, the status or the state of its node, in this order. |
| HealthProperties.ReasonOfPairs | cmd/pithosctl/status.go:194-212 | When all pods are fine: the reason for the first pair of nodes, in the order of the scan, with a load that cannot be parsed or with unequal loads. |
| HealthProperties.PodOrderIrrelevant | cmd/pithosctl/status.go:171-192 | The verdict is the same for every permutation of the pods. |
| HealthProperties.JoinCoversNodes | cmd/pithosctl/status.go:167-183 | In a healthy cluster the pods' addresses are exactly the nodes' if and only if no two pods share one. |
| HealthProperties.JoinSound | cmd/pithosctl/status.go:167-183 | For any two or more running pods, when some load can be parsed: every map of nodes that passes with them has all nodes Up and Normal, if and only if no two pods share an address. |
| HealthProperties.HealthyIsBijection | cmd/pithosctl/status.go:167-192 | With distinct pod addresses, healthy means that pods and nodes correspond one to one and every node is Up and Normal. |
| HealthProperties.HealthySplits | cmd/pithosctl/status.go:160-215 | With distinct pod addresses the verdict is equivalent to separate conditions on all pods, all nodes, the two address sets and the loads. |
| HealthProperties.LoadScanIsLinear | cmd/pithosctl/status.go:194-212 | The load part of the verdict is one comparison of the extremes of the loads in any order. |
| HealthProperties.RaiseThreshold | cmd/pithosctl/status.go:217-224 | Raising the threshold keeps a healthy cluster healthy. |
| HealthProperties.RemovePod | cmd/pithosctl/status.go:160-192 | Removing a pod and its node from a healthy cluster of three or more keeps it healthy exactly when no other pod has the same address. |
| Pipeline.Status | cmd/pithosctl/status.go:123-130 | The command reports no reason exactly when its snapshot succeeds and is healthy, whatever order the map is ranged over in; in some such order its reason is the first thing wrong, and a reason about a pod names the first pod of the list that is not fine; its errors are those of the snapshot. |
| Pipeline.VerdictEndToEnd | cmd/pithosctl/status.go:160-215 | For any pods and whatever nodetool prints or fails to print: Healthy exactly when every pod is shown Running and fully ready, and the first pod prints a table whose rows can all be read and that fits: there are two pods or more and as many addresses in the table, every pod has the address of a row, the last row of each of these addresses says UN, and the loads of the last rows of all addresses are readable and even. |
| Pipeline.AllUpEndToEnd | cmd/pithosctl/status.go:160-215 | If no pod reports more statuses than it has containers, the same with every container of every pod up in place of what is shown. |
| Pipeline.HealthyEndToEnd | cmd/pithosctl/status.go:160-215 | For any pods with distinct addresses: Healthy exactly when there are two pods or more, each shown Running and fully ready, and the first pod prints a readable table with the same addresses, in which the last row of every address says UN and the loads of these rows are readable and even. |
| Pipeline.DownRowNeverHealthy | cmd/pithosctl/status.go:167-192 | With distinct pod addresses, one row that does not say UN makes the cluster unhealthy, unless a later row has its address. |
| Pipeline.OtherLinePanics | internal/pithosctl/pkg/cassandra/cassandra.go:113-128 | A line below the header that does not begin with two capital letters never gives a verdict, and panics if all lines before it can be read. |
| Pipeline.NoIpNeverHealthy | internal/pithosctl/pkg/cluster/status.go:43-46 | A pod without an address always makes the cluster unhealthy. |
| Pipeline.PodListOrderIrrelevant | internal/pithosctl/pkg/cluster/status.go:42-66 | Two orders of the same pods give the same verdict whenever nodetool prints the same in the two pods that are listed first. |
| HiddenFaults.SharedIpHidesDownNode | cmd/pithosctl/status.go:167-192 | When 50.0 and 0KiB can be converted: two pods of different names whose containers are all up and that share an address, and a table whose second row says DN, are reported as a healthy cluster. |
| HiddenFaults.SecondRowIsUnseen | cmd/pithosctl/status.go:167-183 | If two pods shown fully ready share the address of the first of two rows, which says UN, and the loads are even, what the second row says of the status and state of its node does not matter. |
| HiddenFaults.HidesExactlyWhenShared | cmd/pithosctl/status.go:160-215 | For any pods: some printed table makes the command report a healthy cluster although the last row of an address does not say UN, if and only if two pods share an address and the pods can be part of a healthy cluster at all: two or more, all shown fully ready, with addresses that a row can have, and not more pods than there are such addresses. |
| PrintedTable.PrintTable | internal/pithosctl/pkg/cassandra/cassandra.go:68-129 | For any list of such addresses and any of them to be up there is a text that is read as these nodes, UN for those and DN for the others. |
| PrintedTable.ReadAddresses | internal/pithosctl/pkg/cassandra/cassandra.go:113 | A table that can be read has no other addresses: four groups of one to three digits. |
| HiddenFaults.ExtraStatusReportedHealthy | internal/pithosctl/pkg/kubernetes/status.go:84-99 | For every number of containers and every larger number of statuses, two pods with distinct names and addresses and a table (whose shares and loads can be converted) of two nodes that are up are reported as a healthy cluster although a container is not ready. |
| HiddenFaults.ReportSound | cmd/pithosctl/status.go:160-215 | Among pods with n containers and m statuses, every healthy report means that all containers of all pods are up, if and only if m <= n. |
| Base64.DecodeEncode | internal/pithosctl/pkg/cluster/config.go:90-93 | Decoding inverts encoding for every byte string and every padding. |
| Base64.EncodeInjective | internal/pithosctl/pkg/cluster/config.go:90-93 | Different byte strings have different encodings. |
| Base64.EncodedLength | internal/pithosctl/pkg/cluster/config.go:90-93 | The encoding has four characters for every three bytes begun. |
| Base64.QuadIsGroup | internal/pithosctl/pkg/cluster/config.go:90-93 | Four symbols are the 24 bits of three bytes, as section 4 of RFC 4648 lays them out. |
| Base64.SymbolsAreTheAlphabet | internal/pithosctl/pkg/cluster/config.go:90-93 | The symbols are the alphabet of section 4 of RFC 4648. |
| Base64.EncodeLayout | internal/pithosctl/pkg/cluster/config.go:90-93 | Every four characters of an encoding are the 24 bits of their three bytes, and those without a byte are padding. |
| Keys.GeneratedShape | internal/pithosctl/pkg/pithos/keys.go:52-62 | A key and its secret are generated exactly when both draws succeed; the key is the first twenty bytes of its own digest in forty upper-case hexadecimal digits, the secret the first ten bytes of the other digest in twenty. |
| Keys.GeneratedAccessKey | internal/pithosctl/pkg/pithos/keys.go:34-50 | So is every access key; one of type master belongs to ops@gravitational.io, any other to pithos. |
| Keys.HexText | internal/pithosctl/pkg/pithos/keys.go:64-75 | A byte is written as two hexadecimal digits, the upper four bits first. |
| Keys.NamesEqualWhenDigestsAgree | internal/pithosctl/pkg/pithos/keys.go:52-75 | Two generated names are equal exactly when the digests agree on their first twenty bytes. |
| Keys.RandomHexDecodes | internal/pithosctl/pkg/pithos/keys.go:64-75 | Read as hexadecimal again, in either case, the text is the beginning of the digest: a byte for every two characters asked for, at most the whole digest. |
| SecretData.DecodeRender | internal/pithosctl/pkg/pithos/pithos.go:172-186 | Decoding the rendered lines gives the fields of the keys, for every keystore and every order of it. |
| SecretData.RenderedLines | internal/pithosctl/pkg/pithos/pithos.go:172-186 | The template writes two lines for each key, under master.key and master.secret or tenant.key and tenant.secret, in base64. |
| SecretData.SecretContents | internal/pithosctl/pkg/pithos/pithos.go:172-186 | A Secret with one key of each kind holds their names and secrets in these four fields. |
| SecretData.RebuildReads | internal/pithosctl/pkg/pithos/update.go:59-83 | An update needs all four fields, and reads one master key of ops@gravitational.io and one key of pithos. |
| SecretData.SecretRoundTrip | internal/pithosctl/pkg/pithos/update.go:40-83 | Rendering a keystore, decoding it and reading both key types gives the keystore back exactly when it holds one master key and one tenant key with their fixed tenants. |
| Control.AnyOrder | internal/pithosctl/pkg/pithos/pithos.go:180-185 | With at most one key of each kind the data of the Secret does not depend on the order of the template. |
| Control.GeneratedPair | internal/pithosctl/pkg/pithos/pithos.go:60-73 | The keystore that is drawn, with the key types "master" and "pithos", is one key of each kind exactly when the two digests differ in their first twenty bytes. |
| Control.GeneratedKeys | internal/pithosctl/pkg/pithos/pithos.go:60-73 | Keys are drawn exactly when all four draws succeed: a master key and after it a tenant key, the name and the secret of each from their own digests. |
| Control.Controller.CreateResources | internal/pithosctl/pkg/pithos/pithos.go:57-93 | Keys are drawn, the ConfigMap is written, then the Secret; the first failure ends the call, and both objects and the answer are those of AfterCreate. |
| Control.Update | internal/pithosctl/pkg/pithos/update.go:34-57 | The Secret is read and never written; the ConfigMap is replaced by the keys that were read, and the configuration holds what was read before a failure. |
| Control.ReadBeforeFailure | internal/pithosctl/pkg/pithos/update.go:43-53 | What an update leaves in its configuration: no key without a complete master key, that key alone without a complete tenant key, and otherwise both. |
| Lifecycle.StepHeld | internal/pithosctl/pkg/pithos/pithos.go:57-93 | What one attempt, update or removal does to a state that holds two known keystores, for every way its calls can end. |
| Lifecycle.RunHoldsHistory | internal/pithosctl/pkg/pithos/update.go:34-57 | After any run the Secret holds the keys of the last attempt that wrote it, and the ConfigMap those it was last written with, or those that an update read back from the Secret. |
| Lifecycle.AgreementIsCommonKeys | internal/pithosctl/pkg/pithos/pithos.go:75-91 | ConfigMap and Secret agree after a run exactly when the ConfigMap holds the keys that the keys last written to the Secret are read back as; if those are one of each kind, exactly when both hold the same keys. |
| Lifecycle.FinishedMeansAgreement | internal/pithosctl/pkg/pithos/pithos.go:57-93 | When the last operation of a run finished, whatever happened before: after an update the two agree, and after an install they agree exactly when it drew one key of each kind. |
| Lifecycle.DisagreementCause | internal/pithosctl/pkg/pithos/pithos.go:75-91 | After any run, if the two disagree, then nothing was ever written, or there was a cause and no operation finished since: an attempt that wrote the ConfigMap and stopped before the Secret, one that wrote a Secret that is not one key of each kind, or the removal of the ConfigMap. |
| Lifecycle.UpdateRepairs | internal/pithosctl/pkg/pithos/update.go:34-57 | After any run, an update whose calls succeed finishes exactly when the keys last written to the Secret can be read back, and then restores agreement without changing the Secret. |
| Lifecycle.UpdateCannotRepair | internal/pithosctl/pkg/pithos/update.go:34-57 | Once the Secret was written without a master key, no update finishes or changes anything. |
| InitApp.Installer.InitApp | cmd/pithosctl/init.go:41-73 | The steps run in order and the first that fails ends the attempt; the new state is AfterAttempt of the old. |
| InitApp.AttemptOutcome | cmd/pithosctl/init.go:41-77 | Exactly when an attempt succeeds, in terms of its calls, the two files and what was refused, and exactly which resources and tables any attempt leaves. |
| InitApp.SuccessDeploysStore | cmd/pithosctl/init.go:67-72 | An attempt that succeeds where nothing of the object store exists has deployed all of it. |
| InitApp.FirstAttemptIsExact | cmd/pithosctl/init.go:57-60 | When nothing of a file exists yet, its step passes exactly when the whole file was created. |
| InitApp.StepReliable | cmd/pithosctl/init.go:75-77 | "A step that passes has created its whole file" holds exactly when nothing that is missing is refused, or nothing else of the file existed before. |
| InitApp.RetryHidesRefusal | cmd/pithosctl/init.go:75-77 | If part of a file is refused every time, the first attempt fails and the retry passes with that part missing. |
| InitApp.RunsInOrder | cmd/pithosctl/init.go:52-72 | In every run of attempts the object store is deployed only after the tables, those only after Cassandra, and that only after ConfigMap and Secret were written. |
| InitApp.SuccessfulInstall | cmd/pithosctl/init.go:41-73 | Whatever the attempts before it did, an attempt that ends without an error leaves the tables initialised, some of Cassandra and of the object store deployed, and ConfigMap and Secret in agreement exactly when the digests of its two names differ in their first twenty bytes. |
| Seeds.GetSeeds | images/cassandra/java/src/main/java/io/k8s/cassandra/KubernetesSeedProvider.java:73-119 | The resolved endpoint addresses in order; when there is none, the resolved pieces of CASSANDRA_SEEDS, or of POD_IP if that is unset or empty; and no seed at all if any of them does not resolve. |
| Seeds.SubsetPositions | images/cassandra/java/src/main/java/io/k8s/cassandra/KubernetesSeedProvider.java:93-103 | The endpoint addresses are those that are not null, each once, subset after subset and in order. |
| Seeds.SplitMeaning | images/cassandra/java/src/main/java/io/k8s/cassandra/KubernetesSeedProvider.java:107 | A text without a comma is one seed; any other is cut at every comma and only empty pieces at its end are dropped. |
| Seeds.PiecesJoin | images/cassandra/java/src/main/java/io/k8s/cassandra/KubernetesSeedProvider.java:107 | The default seeds are split at every comma: the pieces have no comma and joined give the text. |
| Seeds.DroppedAreEmpty | images/cassandra/java/src/main/java/io/k8s/cassandra/KubernetesSeedProvider.java:107 | A split drops the empty pieces at the end of the text and no others. |
| Duration.ShownAgeFits | cmd/pithosctl/status.go:134-149 | A non-negative age is shown as the number of whole units it contains. |
| Duration.ShownAge | cmd/pithosctl/status.go:134-149 | Seconds below a minute, minutes below an hour, hours below a day, days below 364 days, and then years of 365 days, of a duration in nanoseconds. |
| Duration.NegativeAge | cmd/pithosctl/status.go:134-149 | A negative age of two seconds or more is invalid; a shorter one is shown as 0s. |
| Duration.ShownAgeGrows | cmd/pithosctl/status.go:134-149 | The shown age never decreases, except exactly when it goes from a second or more to the interval from 364 to 365 days. |

## Left out

- Rounding: of the float32 share of owned data, of the load quotient at 2^52 bytes and above, of the alert formula at 2^46 bytes and above, and of durations within nanoseconds of an hour.
- The rack, which the parser captures but does not use, and which the expression does not determine (it may begin with spaces).
- The wording of the reasons; a reason is a value with the parts that its message prints.
- Converting a printed load or share to a number: library code, a parameter here.
- YAML: the ConfigMap is its keystore and the Secret its fields; how a scalar is quoted or typed is not modelled.
- Carriage returns and line feeds inside a base64 text, which a decoder may skip and the encoder never writes.
- Which random bytes are drawn; every digest is allowed, and so are two equal names.
- Concurrent writers of the ConfigMap or the Secret, and the resource version checks of the API.
- An API server that lists no pods is an error of the client; a snapshot of no pods is that error here.
- The templates of the ConfigMap and of the Kubernetes resources, the replication factor and the checks of the configuration; an attempt is told whether they pass.
- Polling the initialisation job; its call succeeds, is refused, or ran although it was reported as failed.
- The health probe of the object store, the HTTP server, command-line flags, logging and the printed table, with a pod that has no start time to show an age of.
- Health.IsClusterHealthy: the bodies of its loops are methods of their own, CheckPod, CollectNodes and CheckLoads; the original has them inline.
- Seeds.GetSeeds: its loops over subsets, addresses and defaults are methods of their own, which return a missing value where the original throws.
