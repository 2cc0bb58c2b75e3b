/** Return codes of the GNU Scientific Library and the value-plus-error pair
    that its range-checked accessors produce. */
module GslErrno {

  /** GSL_SUCCESS, GSL_FAILURE and GSL_EINVAL as gsl_errno.h numbers them. */
  const SUCCESS: int := 0
  const FAILURE: int := -1
  const EINVAL: int := 4

  /** A value returned by an accessor together with the error code it handed
      to the library's error handler (SUCCESS when the handler was not called). */
  datatype Checked<T> = Checked(value: T, errno: int)
}
