/** Types shared by every module of the model: raw bytes and an optional value. */
module Basics {

  /** One octet of a Ruby binary ("ascii-8bit") string. */
  type byte = bv8

  /** A value that may be absent; `None` also stands for a collaborator that raised. */
  datatype Option<+T> = None | Some(value: T)

  /** The line feed that Ruby's Base64 writer ends every line with. */
  const LF: byte := 0x0A
}
