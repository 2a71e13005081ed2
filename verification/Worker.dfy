/**
 Worker ids: one row, and so one fresh key, per launch
 (src/worker/disposable-worker-id-assigner.ts, src/worker/dao/sql-worker-node-dao.ts). The
 database is a table whose AUTO_INCREMENT key only grows; `gap` is what other clients used up.
 */
module Worker {

  datatype Row = Row(hostName: string, port: string, nodeType: int)

  class WorkerNodeEntity {
    var id: int
    var hostName: string
    var port: string
    var nodeType: int

    constructor ()
      ensures id == 0
    {
      id, hostName, port, nodeType := 0, "", "", 0;
    }
  }

  class WorkerNodeTable {
    var rows: map<int, Row>
    var lastKey: int

    ghost predicate Valid()
      reads this
    {
      lastKey >= 0 && forall k :: k in rows ==> 0 < k <= lastKey
    }

    constructor ()
      ensures Valid() && rows == map[] && lastKey == 0
    {
      rows, lastKey := map[], 0;
    }

    method Insert(row: Row, gap: nat) returns (generatedKey: int)
      requires Valid()
      modifies this
      ensures Valid()
      ensures generatedKey == lastKey && generatedKey > old(lastKey) && generatedKey !in old(rows)
      ensures rows == old(rows)[generatedKey := row]
    {
      generatedKey := lastKey + 1 + gap;
      rows := rows[generatedKey := row];
      lastKey := generatedKey;
    }
  }

  class SqlWorkerNodeDAO {
    const table: WorkerNodeTable

    constructor (table: WorkerNodeTable)
      ensures this.table == table
    {
      this.table := table;
    }

    // The generated key is written back into the entity.
    method AddWorkerNode(entity: WorkerNodeEntity, gap: nat)
      requires table.Valid()
      modifies table, entity`id
      ensures table.Valid()
      ensures entity.id == table.lastKey > old(table.lastKey) && entity.id !in old(table.rows)
      ensures table.rows == old(table.rows)[entity.id := Row(entity.hostName, entity.port, entity.nodeType)]
    {
      var generatedKey := table.Insert(Row(entity.hostName, entity.port, entity.nodeType), gap);
      entity.id := generatedKey;
    }
  }

  const CONTAINER := 1
  const ACTUAL := 2

  class DisposableWorkerIdAssigner {
    const workerNodeDAO: SqlWorkerNodeDAO

    constructor (workerNodeDAO: SqlWorkerNodeDAO)
      ensures this.workerNodeDAO == workerNodeDAO
    {
      this.workerNodeDAO := workerNodeDAO;
    }

    // Every launch gets a key of its own, even from the same host and port.
    method AssignWorkerId(isDocker: bool, hostName: string, port: string, gap: nat) returns (workerId: int)
      requires workerNodeDAO.table.Valid()
      modifies workerNodeDAO.table
      ensures workerNodeDAO.table.Valid()
      ensures workerId > old(workerNodeDAO.table.lastKey) && workerId == workerNodeDAO.table.lastKey
      ensures workerNodeDAO.table.rows == old(workerNodeDAO.table.rows)
                [workerId := Row(hostName, port, if isDocker then 1 else 2)]
      ensures workerId !in old(workerNodeDAO.table.rows)
    {
      var entity := BuildWorkerNode(isDocker, hostName, port);
      workerNodeDAO.AddWorkerNode(entity, gap);
      workerId := entity.id;
    }

    method BuildWorkerNode(isDocker: bool, hostName: string, port: string) returns (entity: WorkerNodeEntity)
      ensures fresh(entity) && entity.hostName == hostName && entity.port == port
      ensures entity.nodeType == if isDocker then CONTAINER else ACTUAL
    {
      entity := new WorkerNodeEntity();
      entity.nodeType := if isDocker then CONTAINER else ACTUAL;
      entity.hostName := hostName;
      entity.port := port;
    }
  }
}
