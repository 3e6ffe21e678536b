/** Value types shared by the whole model: Rust's `Option` and `Result`,
    the `i32` integer type, and the `website_account` row (src/db/models.rs). */
module Models {

  /** Rust's `Option<T>`. */
  datatype Option<+T> = None | Some(value: T)

  /** Rust's `Result<T, E>`; usable with Dafny's `:-` like Rust's `?`. */
  datatype Result<+T, +E> = Ok(value: T) | Err(error: E) {
    predicate IsFailure() {
      Err?
    }

    function PropagateFailure<U>(): Result<U, E>
      requires Err?
    {
      Err(error)
    }

    function Extract(): T
      requires Ok?
    {
      value
    }
  }

  const I32_MIN: int := -0x8000_0000
  const I32_MAX: int := 0x7fff_ffff

  /** Rust's 32-bit signed integer. */
  newtype i32 = x: int | I32_MIN <= x <= I32_MAX

  /** One row of the `website_account` table. `id` is absent on a row that
      has not yet been given an identifier by the store. */
  datatype WebsiteAccount = WebsiteAccount(
    id: Option<i32>,
    account: string,
    password: string,
    site_url: string,
    site_name: Option<string>,
    note: Option<string>)
}
