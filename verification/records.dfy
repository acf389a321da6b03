/** Values shared by every part of the model: optional values, embeddings and
    the rows of the two MySQL tables (`students` and `attendance`) as the
    application reads and writes them. */
module Records {

  datatype Option<T> = None | Some(value: T)

  /** A face embedding as produced by the external encoder (128 numbers in
      practice; the dimension is whatever the encoder yields). */
  type Embedding = seq<real>

  /** Calendar day and time of day, kept abstract: only equality of days matters. */
  type Date = nat
  type Time = nat

  datatype Timestamp = Timestamp(date: Date, time: Time)

  /** One row of `students`. `encoding` is `None` while the column is NULL,
      i.e. for a student who was added but whose face was never captured. */
  datatype StudentRow = StudentRow(
    rowId: nat,
    studentId: string,
    name: string,
    department: string,
    email: string,
    encoding: Option<Embedding>)

  /** One row of `attendance`. */
  datatype AttendanceRow = AttendanceRow(studentId: string, date: Date, time: Time)

  /** The result of a read from the store: the rows, or a `mysql.connector.Error`. */
  datatype StoreRead<T> = Fetched(value: T) | StoreError
}
